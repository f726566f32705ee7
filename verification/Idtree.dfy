/** An id allocator: a radix tree in which each layer knows which subtrees are full. */
module Idtree {
  import opened Basics
  import opened IdtreeLayers
  import opened IdtreeSteps

  ghost function RecordOf<T>(p: Layer<T>): Record<T>
    reads p
  {
    Record(p.bitmap, p.ary, p.count)
  }

  ghost function Mem<T>(at: Tree<T>): Memory<T>
    reads at.Values
  {
    map k | k in at :: RecordOf(at[k])
  }

  lemma MemIs<T>(at: Tree<T>, mem: Memory<T>)
    requires at.Keys == mem.Keys
    requires forall k :: k in at ==> RecordOf(at[k]) == mem[k]
    ensures Mem(at) == mem
  {
  }

  // ---------- Choosing a digit ----------

  /** The first bit from n on that is not set. */
  method FindNextBit(bitmap: set<nat>, n0: nat) returns (n: nat)
    requires n0 <= SIZE
    ensures n0 <= n <= SIZE
    ensures forall i :: n0 <= i < n ==> i in bitmap
    ensures n < SIZE ==> n !in bitmap
  {
    n := n0;
    while n < SIZE && n in bitmap
      invariant n0 <= n <= SIZE
      invariant forall i :: n0 <= i < n ==> i in bitmap
    {
      n := n + 1;
    }
  }

  /** The digits of id below a level are zeros. */
  ghost predicate Rounded(id: nat, level: nat) {
    id == Prefix(id, level) * Power(level)
  }

  /** The ids with a smaller prefix are all in use. */
  ghost predicate FullBefore<T>(ids: map<nat, T>, level: nat, x: nat) {
    forall y: nat :: y < x ==> FullAt(ids, level, y)
  }

  /** id with its digit at a level moved up from n to m, and zeros below. */
  function Moved(id: nat, level: nat, n: nat, m: nat): nat {
    if m == n then id else (Prefix(id, level) / SIZE * SIZE + m) * Power(level)
  }

  lemma MovedFacts(id: nat, level: nat, m: nat)
    requires Rounded(id, level) && Prefix(id, level) % SIZE <= m < SIZE
    ensures var id' := Moved(id, level, Prefix(id, level) % SIZE, m);
            && Prefix(id', level) == Joined(Prefix(id, level + 1), m)
            && Rounded(id', level)
            && Prefix(id', level + 1) == Prefix(id, level + 1)
  {
    var x := Prefix(id, level);
    var id' := Moved(id, level, x % SIZE, m);
    assert x == x / SIZE * SIZE + x % SIZE;
    if m != x % SIZE {
      PrefixTimes(x / SIZE * SIZE + m, level);
    }
  }

  lemma SamePath(a: nat, b: nat, level: nat, j: nat)
    requires Prefix(a, level) == Prefix(b, level) && level <= j + 1
    ensures PathKey(a, j) == PathKey(b, j)
  {
    PrefixAgree(a, b, level, j + 1);
  }

  lemma RoundedBelow(id: nat, level: nat)
    requires Rounded(id, level) && level > 0
    ensures Rounded(id, level - 1) && Prefix(id, level - 1) == SIZE * Prefix(id, level)
  {
    var x := Prefix(id, level);
    assert id == (SIZE * x) * Power(level - 1);
    PrefixTimes(SIZE * x, level - 1);
  }

  lemma FullBeforeNext<T>(ids: map<nat, T>, level: nat, x: nat, m: nat, bitmap: set<nat>, k: Key)
    requires k == Key(level, x / SIZE) && Bits(ids, k, bitmap) && FullBefore(ids, level, x)
    requires x % SIZE <= m <= SIZE && forall i :: x % SIZE <= i < m ==> i in bitmap
    ensures forall y: nat :: y < x / SIZE * SIZE + m ==> FullAt(ids, level, y)
  {
    hide FullAt;
    forall y: nat | y < x / SIZE * SIZE + m
      ensures FullAt(ids, level, y)
    {
      if y >= x {
        assert y == Joined(x / SIZE, y % SIZE) && y % SIZE in bitmap;
      }
    }
  }

  lemma FullBeforeBelow<T>(ids: map<nat, T>, level: nat, x: nat)
    requires FullBefore(ids, level, x) && level > 0
    ensures FullBefore(ids, level - 1, SIZE * x)
  {
    var lower := level - 1;
    forall y: nat | y < SIZE * x
      ensures FullAt(ids, lower, y)
    {
      assert FullAt(ids, level, y / SIZE) && y == Joined(y / SIZE, y % SIZE);
    }
  }

  /** A digit beyond the last one: the whole layer is full. */
  lemma NoDigitLeft<T>(ids: map<nat, T>, level: nat, x: nat, k: Key, bitmap: set<nat>)
    requires k == Key(level, x / SIZE) && Bits(ids, k, bitmap) && FullBefore(ids, level, x)
    requires forall i :: x % SIZE <= i < SIZE ==> i in bitmap
    ensures FullAt(ids, level + 1, x / SIZE)
  {
    FullBeforeNext(ids, level, x, SIZE, bitmap, k);
  }

  lemma FullLeaves<T>(ids: map<nat, T>, x: nat)
    requires FullBefore(ids, 0, x)
    ensures forall j: nat :: j < x ==> j in ids
  {
    forall j: nat | j < x
      ensures j in ids
    {
      assert FullAt(ids, 0, j);
    }
  }

  lemma {:induction false} FullMeans<T>(ids: map<nat, T>, level: nat, id: nat)
    requires FullAt(ids, level, Prefix(id, level))
    ensures id in ids
  {
    if id !in ids {
      NotFull(ids, id, level);
    }
  }

  /** When the two first subtrees of seven layers are full every id is in use. */
  lemma AllTaken<T>(ids: map<nat, T>, x: nat)
    requires FullBefore(ids, 6, x) && x >= 2
    ensures forall id: nat :: id < MAX_ID_BIT ==> id in ids
  {
    forall id: nat | id < MAX_ID_BIT
      ensures id in ids
    {
      IdRange(id);
      FullMeans(ids, 6, id);
    }
  }

  lemma SevenNotFull<T>(at: Tree<T>, ids: map<nat, T>)
    requires IdsIn(at, ids)
    ensures !FullAt(ids, 7, 0)
  {
    var id := 2 * Power(6);
    PrefixTimes(2, 6);
    IdRange(id);
    NotFull(ids, id, 7);
    assert Prefix(id, 7) == Prefix(id, 6) / SIZE;
  }

  lemma PrefixZeroUp(id: nat, n: nat, k: nat)
    requires n <= k && Prefix(id, n) == 0
    ensures Prefix(id, k) == 0
    decreases k
  {
    if n < k {
      PrefixZeroUp(id, n, k - 1);
    }
  }

  /** A digit moved below the last layer of seven leaves the id in range. */
  lemma MovedInRange(id: nat, id': nat, level: nat)
    requires Prefix(id', level + 1) == Prefix(id, level + 1) && level < 6
    requires id < MAX_ID_BIT || Prefix(id, level + 1) == 0
    ensures id' < MAX_ID_BIT
  {
    PrefixAgree(id, id', level + 1, 6);
    IdRange(id);
    IdRange(id');
    if Prefix(id, level + 1) == 0 {
      PrefixZeroUp(id, level + 1, 6);
    }
  }

  lemma MovedTop(id: nat)
    ensures id >= MAX_ID_BIT <==> Prefix(id, 6) >= 2
  {
    IdRange(id);
  }

  lemma LeafLevel(id: nat)
    ensures Prefix(id, 0) == id
  {
  }

  // ---------- The way down ----------

  /** The layers passed on the way down to a level, in the direction of id. */
  ghost predicate Passed<T>(at: Tree<T>, layers: nat, id: nat, l: nat, pa: seq<Layer?<T>>) {
    && |pa| == MAX_LEVEL + 1 && layers <= MAX_LEVEL
    && pa[layers] == null
    && forall j :: l < j < layers ==> PathKey(id, j) in at && pa[j] == at[PathKey(id, j)]
  }

  /** On the way to the least id that is not in use. */
  ghost predicate Way<T>(at: Tree<T>, ids: map<nat, T>, layers: nat, id: nat, l: nat, pa: seq<Layer?<T>>) {
    && l < layers
    && Passed(at, layers, id, l, pa)
    && PathKey(id, l) in at
    && Rounded(id, l)
    && FullBefore(ids, l, Prefix(id, l))
    && (l + 1 < layers ==> !FullAt(ids, l + 1, Prefix(id, l + 1)) && id < MAX_ID_BIT)
    && (l + 1 == layers ==> Prefix(id, l + 1) == 0)
  }

  lemma PassedMoved<T>(at: Tree<T>, layers: nat, id: nat, id': nat, l: nat, pa: seq<Layer?<T>>)
    requires Passed(at, layers, id, l, pa) && Prefix(id, l + 1) == Prefix(id', l + 1)
    ensures Passed(at, layers, id', l, pa)
  {
    forall j | l < j < layers
      ensures PathKey(id', j) == PathKey(id, j)
    {
      SamePath(id, id', l + 1, j);
    }
  }

  /** The first digit whose subtree is not full. */
  lemma Chosen<T>(at: Tree<T>, ids: map<nat, T>, layers: nat, id: nat, l: nat, pa: seq<Layer?<T>>, bitmap: set<nat>,
                  m: nat)
    requires Way(at, ids, layers, id, l, pa) && Bits(ids, PathKey(id, l), bitmap)
    requires Prefix(id, l) % SIZE <= m < SIZE && m !in bitmap
    requires forall i :: Prefix(id, l) % SIZE <= i < m ==> i in bitmap
    ensures var id' := Moved(id, l, Prefix(id, l) % SIZE, m);
            && Way(at, ids, layers, id', l, pa)
            && Prefix(id', l) == Joined(Prefix(id, l + 1), m)
            && Prefix(id', l + 1) == Prefix(id, l + 1)
            && PathKey(id', l) == PathKey(id, l)
            && !FullAt(ids, l, Prefix(id', l))
            && (id' >= MAX_ID_BIT ==> l == 6 && Prefix(id', l) >= 2)
  {
    var x := Prefix(id, l);
    var id' := Moved(id, l, x % SIZE, m);
    MovedFacts(id, l, m);
    assert PathKey(id, l) == Key(l, x / SIZE) && Prefix(id, l + 1) == x / SIZE;
    hide FullAt, Prefix, Bits, Rounded, Moved, Passed;
    FullBeforeNext(ids, l, x, m, bitmap, PathKey(id, l));
    assert !FullAt(ids, l, Joined(PathKey(id, l).prefix, m)) by {
      BitClear(ids, PathKey(id, l), bitmap, m);
    }
    PassedMoved(at, layers, id, id', l, pa);
    PassedFew(at, layers, id, l, pa);
    if l < 6 {
      MovedInRange(id, id', l);
    } else {
      MovedTop(id');
    }
  }

  lemma PassedFew<T>(at: Tree<T>, layers: nat, id: nat, l: nat, pa: seq<Layer?<T>>)
    requires Passed(at, layers, id, l, pa)
    ensures layers <= MAX_LEVEL
  {
  }

  lemma BitClear<T>(ids: map<nat, T>, k: Key, bitmap: set<nat>, m: nat)
    requires Bits(ids, k, bitmap) && m < SIZE
    ensures m in bitmap <==> FullAt(ids, k.level, Joined(k.prefix, m))
  {
  }

  lemma Lower<T>(at: Tree<T>, ids: map<nat, T>, layers: nat, id: nat, l: nat, pa: seq<Layer?<T>>)
    requires Way(at, ids, layers, id, l, pa) && !FullAt(ids, l, Prefix(id, l)) && id < MAX_ID_BIT
    requires l > 0 && PathKey(id, l - 1) in at
    ensures |pa| == MAX_LEVEL + 1 && l < |pa|
    ensures Way(at, ids, layers, id, l - 1, pa[l := at[PathKey(id, l)]])
  {
    hide FullAt, Prefix, Rounded, FullBefore;
    RoundedBelow(id, l);
    FullBeforeBelow(ids, l, Prefix(id, l));
  }

  lemma WayGrown<T>(at: Tree<T>, at': Tree<T>, ids: map<nat, T>, layers: nat, id: nat, l: nat, pa: seq<Layer?<T>>)
    requires Way(at, ids, layers, id, l, pa)
    requires forall j :: j in at ==> j in at' && at'[j] == at[j]
    ensures Way(at', ids, layers, id, l, pa)
  {
    hide FullAt, Prefix, Rounded, FullBefore;
  }

  /** Where the walk starts: at the first id, or after the full tree that has got a new top. */
  ghost predicate Start<T>(ids: map<nat, T>, layers: nat, id: nat) {
    || id == 0
    || (layers > 1 && id == Power(layers - 1) && FullAt(ids, layers - 1, 0))
  }

  lemma WayFromTop<T>(at: Tree<T>, ids: map<nat, T>, layers: nat, id: nat, pa: seq<Layer?<T>>)
    requires 0 < layers <= MAX_LEVEL && Key(layers - 1, 0) in at && Start(ids, layers, id)
    requires |pa| == MAX_LEVEL + 1 && pa[layers] == null
    ensures Way(at, ids, layers, id, layers - 1, pa) && PathKey(id, layers - 1) == Key(layers - 1, 0)
  {
    PrefixTimes(0, layers - 1);
    PrefixTimes(1, layers - 1);
    assert Prefix(id, layers) == Prefix(id, layers - 1) / SIZE;
  }

  /** When a layer has no digit left, it is the top. */
  lemma OnlyTopIsFull<T>(at: Tree<T>, ids: map<nat, T>, layers: nat, id: nat, l: nat, pa: seq<Layer?<T>>,
                         bitmap: set<nat>)
    requires Way(at, ids, layers, id, l, pa) && Bits(ids, PathKey(id, l), bitmap)
    requires forall i :: Prefix(id, l) % SIZE <= i < SIZE ==> i in bitmap
    ensures l + 1 == layers && FullAt(ids, layers, 0)
  {
    assert PathKey(id, l) == Key(l, Prefix(id, l) / SIZE) && Prefix(id, l + 1) == Prefix(id, l) / SIZE;
    hide FullAt, Prefix, Bits, Rounded, FullBefore, Passed;
    NoDigitLeft(ids, l, Prefix(id, l), PathKey(id, l), bitmap);
  }

  // ---------- Looking up ----------

  function Get<T>(ids: map<nat, T>, id: nat): Option<T> {
    if id in ids then Some(ids[id]) else None
  }

  /** The answer for any id of 32 bits: only some of the digits that the tree does not have are looked at. */
  function Looked<T>(ids: map<nat, T>, layers: nat, id: int): Option<T> {
    var i := id % MAX_ID_BIT;
    if layers * 5 + 5 < 31 && Prefix(i, layers + 1) != 0 then None else Get(ids, Wrap(i, layers))
  }

  /** The answer is that of the map, except for an id beyond the tree that falls on one in use. */
  lemma LookupAgrees<T>(at: Tree<T>, mem: Memory<T>, ids: map<nat, T>, layers: nat, id: nat)
    requires Sound(at, mem, ids, layers) && id < MAX_ID_BIT
    ensures Looked(ids, layers, id) == Get(ids, id) <==>
            || Prefix(id, layers) == 0
            || (layers * 5 + 5 < 31 && Prefix(id, layers + 1) != 0)
            || Wrap(id, layers) !in ids
  {
    hide AllSlots, AllCounts, AllBitsSet;
    assert id % MAX_ID_BIT == id;
    if id in ids {
      IdBelow(at, ids, layers, id);
    }
    if Prefix(id, layers) == 0 {
      WrapSmall(id, layers);
      assert Prefix(id, layers + 1) == 0;
    }
  }

  /** The id that only has the digits the tree has. */
  function Aliased(id: int, layers: nat): nat {
    Wrap(id % MAX_ID_BIT, layers)
  }

  /** Removing an id removes no other, except for an id beyond the tree that falls on one in use. */
  lemma RemoveAgrees<T>(at: Tree<T>, mem: Memory<T>, ids: map<nat, T>, layers: nat, id: nat)
    requires Sound(at, mem, ids, layers) && id < MAX_ID_BIT
    ensures ids - {Aliased(id, layers)} == ids - {id} <==> Prefix(id, layers) == 0 || Aliased(id, layers) !in ids
  {
    hide AllSlots, AllCounts, AllBitsSet;
    var w := Aliased(id, layers);
    assert id % MAX_ID_BIT == id;
    if id in ids {
      IdBelow(at, ids, layers, id);
    }
    if Prefix(id, layers) == 0 {
      WrapSmall(id, layers);
    } else if w in ids {
      assert w in ids - {id} || w == id;
      PrefixWrap(id, layers, layers);
    } else {
      assert ids - {w} == ids == ids - {id};
    }
  }

  ghost predicate AllInUse<T>(ids: map<nat, T>) {
    forall j: nat :: j < 0x8000_0000 ==> j in ids
  }

  // ---------- The tree ----------

  class IdTree<T> {
    var top: Layer?<T>
    var layers: nat
    ghost var at: Tree<T>
    ghost var ids: map<nat, T>

    /** All is right, but perhaps a top that is still empty. */
    ghost predicate Built()
      reads this, at.Values
    {
      && 0 < layers <= MAX_LEVEL
      && Key(layers - 1, 0) in at && top == at[Key(layers - 1, 0)]
      && Sound(at, Mem(at), ids, layers)
      && OccupiedBut(Mem(at), Key(layers - 1, 0))
    }

    ghost predicate Valid()
      reads this, at.Values
    {
      && layers <= MAX_LEVEL
      && (layers == 0 ==> top == null && at == map[])
      && (layers > 0 ==> Key(layers - 1, 0) in at && top == at[Key(layers - 1, 0)])
      && Sound(at, Mem(at), ids, layers)
      && Occupied(Mem(at))
    }

    constructor ()
      ensures Valid() && ids == map[] && at == map[] && layers == 0
    {
      top := null;
      layers := 0;
      at := map[];
      ids := map[];
      new;
      EmptySound<T>();
      MemIs<T>(map[], map[]);
    }

    /** Put a missing layer below p. */
    method AddChild(p: Layer<T>, ghost k: Key, m: nat)
      requires Sound(at, Mem(at), ids, layers) && OccupiedBut(Mem(at), k)
      requires k in at && at[k] == p && k.level > 0 && m < SIZE
      requires |p.ary| == SIZE && p.ary[m].Empty?
      modifies this`at, p
      ensures Sound(at, Mem(at), ids, layers) && OccupiedBut(Mem(at), Child(k, m))
      ensures at.Keys == old(at.Keys) + {Child(k, m)} && Child(k, m) !in old(at) && fresh(at[Child(k, m)])
      ensures forall j :: j in old(at) ==> at[j] == old(at)[j]
      ensures |p.ary| == SIZE && p.ary[m] == Below(at[Child(k, m)])
    {
      hide Sound, OccupiedBut, Mem, Child;
      ghost var mem := Mem(at);
      ghost var was := at;
      MemAll(at);
      var pn := new Layer<T>();
      p.ary := p.ary[m := Below(pn)];
      p.count := p.count + 1;
      ghost var r := RecordOf(p);
      assert pn !in was.Values;
      ChildAdded(was, mem, ids, layers, k, m, pn, r);
      at := at[Child(k, m) := pn];
      DifferentOf(was, mem, ids, layers);
      ChildMem(was, mem, k, Child(k, m), pn);
    }

    /** Go down to the leaf layer of the least id not in use: -1 if there is none, -2 if the tree is full. */
    method FindLeaf(startingId: nat) returns (v: int, id: nat, m: nat, p: Layer<T>, pa: seq<Layer?<T>>)
      requires Built() && Start(ids, layers, startingId)
      modifies this`at, at.Values
      ensures Built() || v == 0
      ensures v == 0 || v == -1 || v == -2
      ensures v < 0 ==> at == old(at) && Mem(at) == old(Mem(at))
      ensures v == -2 <==> FullAt(ids, layers, 0)
      ensures v == -2 ==> id == Power(layers)
      ensures v == -1 ==> forall j: nat :: j < MAX_ID_BIT ==> j in ids
      ensures v == 0 ==> Sound(at, Mem(at), ids, layers) && OccupiedBut(Mem(at), PathKey(id, 0))
      ensures v == 0 ==> Way(at, ids, layers, id, 0, pa) && id < MAX_ID_BIT && !FullAt(ids, 0, id)
      ensures v == 0 ==> PathKey(id, 0) in at && p == at[PathKey(id, 0)] && m == id % SIZE
      ensures v == 0 ==> fresh(at.Values - old(at.Values))
      ensures Key(layers - 1, 0) in at && top == at[Key(layers - 1, 0)]
    {
      hide Sound, OccupiedBut, Mem, Way, Bits, FullAt, Prefix, Start, Child, PathKey, Passed, FullBefore, Rounded;
      var l := layers - 1;
      p := top;
      id := startingId;
      pa := seq(MAX_LEVEL + 1, _ => null);
      m := 0;
      WayFromTop(at, ids, layers, id, pa);
      while true
        invariant 0 <= l < layers <= MAX_LEVEL && Key(layers - 1, 0) in at && top == at[Key(layers - 1, 0)]
        invariant Sound(at, Mem(at), ids, layers) && OccupiedBut(Mem(at), PathKey(id, l))
        invariant Way(at, ids, layers, id, l, pa) && PathKey(id, l) in at && p == at[PathKey(id, l)]
        invariant l + 1 == layers ==> at == old(at) && Mem(at) == old(Mem(at)) && PathKey(id, l) == Key(layers - 1, 0)
        invariant l + 1 < layers ==> !FullAt(ids, layers, 0)
        invariant fresh(at.Values - old(at.Values))
        decreases l
      {
        var n := Prefix(id, l) % SIZE;
        m := FindNextBit(p.bitmap, n);
        BitsHere(at, ids, layers, PathKey(id, l));
        if m == SIZE {
          // A layer reached through a clear bit is not full, so this is the top.
          OnlyTopIsFull(at, ids, layers, id, l, pa, p.bitmap);
          TopPrefix(at, ids, layers, id, l, pa);
          id := (Prefix(id, l + 1) + 1) * Power(l + 1);
          return -2, id, m, p, pa;
        }
        Chosen(at, ids, layers, id, l, pa, p.bitmap, m);
        id := Moved(id, l, n, m);
        if l + 1 == layers {
          TopNotFull(at, ids, layers, id, l, pa);
        }
        if id >= MAX_ID_BIT {
          SixIsTop(at, ids, layers, id, l, pa);
          AllTaken(ids, Prefix(id, l));
          return -1, id, m, p, pa;
        }
        if l == 0 {
          LeafLevel(id);
          return 0, id, m, p, pa;
        }
        SlotsHere(at, ids, layers, PathKey(id, l), m);
        ChildOnPath(id, l, m);
        ghost var grown := at;
        if p.ary[m].Empty? {
          AddChild(p, PathKey(id, l), m);
          WayGrown(grown, at, ids, layers, id, l, pa);
        } else {
          OccupiedHere(at, ids, layers, PathKey(id, l), m, PathKey(id, l - 1));
        }
        Lower(at, ids, layers, id, l, pa);
        pa := pa[l := p];
        p := p.ary[m].layer;
        l := l - 1;
      }
    }

    /** Plant ptr at the least id not in use, and mark what is full now. */
    method SubAlloc(ptr: T, startingId: nat) returns (v: int, nextId: nat)
      requires Built() && Start(ids, layers, startingId) && (Occupied(Mem(at)) || ids == map[])
      modifies this`at, this`ids, at.Values
      ensures Valid() && layers > 0 && fresh(at.Values - old(at.Values))
      ensures v >= -2
      ensures v < 0 ==> ids == old(ids) && Mem(at) == old(Mem(at))
      ensures v == -2 <==> FullAt(old(ids), layers, 0)
      ensures v == -2 ==> nextId == Power(layers)
      ensures v == -1 ==> forall j: nat :: j < MAX_ID_BIT ==> j in ids
      ensures v >= 0 ==> v < MAX_ID_BIT && v !in old(ids) && ids == old(ids)[v := ptr]
      ensures v >= 0 ==> forall j: nat :: j < v ==> j in old(ids)
    {
      hide Sound, OccupiedBut, Occupied, Mem, Way, Bits, FullAt, Prefix, Start, Child, PathKey, Passed, FullBefore;
      hide Rounded, Different, Keys, IdsIn, AllSlots, AllCounts, AllBitsSet, MixedBits, OnlyDiffer;
      ghost var was := ids;
      var w, id, m, p, pa := FindLeaf(startingId);
      if w < 0 {
        FullHasIds(ids, layers, w);
        return w, id;
      }
      ghost var mem := Mem(at);
      ghost var now := ids[id := ptr];
      SoundParts(at, mem, ids, layers);
      LeafFull(ids, id);
      LeafEntry(at, mem, ids, id);
      MemAll(at);
      LeastHere(at, ids, layers, id, pa);
      p.ary := p.ary[m := User(ptr)];
      p.bitmap := p.bitmap + {m};
      p.count := p.count + 1;
      ids := now;
      Planted(at, mem, was, layers, id, ptr, PathKey(id, 0), RecordOf(p), now);
      ChangedMem(at, mem, PathKey(id, 0));
      MarkFull(p, id, pa, was);
      return id, id;
    }

    /** While a layer is full mark its bit in the one above. */
    method MarkFull(leaf: Layer<T>, id: nat, pa: seq<Layer?<T>>, ghost was: map<nat, T>)
      requires 0 < layers <= MAX_LEVEL && Key(layers - 1, 0) in at && top == at[Key(layers - 1, 0)]
      requires Keys(at, layers) && Different(at) && IdsIn(at, ids) && Passed(at, layers, id, 0, pa)
      requires AllSlots(at, Mem(at), ids) && AllCounts(Mem(at)) && Occupied(Mem(at))
      requires MixedBits(Mem(at), was, ids, id, 1) && OnlyDiffer(was, ids, id) && id !in was
      requires PathKey(id, 0) in at && leaf == at[PathKey(id, 0)]
      modifies at.Values
      ensures Valid()
    {
      hide OccupiedBut, Occupied, Mem, Bits, FullAt, Prefix, PathKey, OnlyDiffer, AllBitsSet, AllBits, Sound;
      hide Different, Keys, IdsIn, AllSlots, AllCounts, MixedBits;
      var l, n, p := 0, id, leaf;
      LeafLevel(id);
      MemAll(at);
      while p.bitmap == AllBits()
        invariant 0 <= l < layers && n == Prefix(id, l) && PathKey(id, l) in at && p == at[PathKey(id, l)]
        invariant AllSlots(at, Mem(at), ids) && AllCounts(Mem(at)) && Occupied(Mem(at))
        invariant MixedBits(Mem(at), was, ids, id, l + 1)
        decreases layers - l
      {
        ghost var mem := Mem(at);
        MemAll(at);
        l := l + 1;
        var up := pa[l];
        if up == null {
          MarkedAll(mem, at, was, ids, id, layers);
          MakeSound(at, mem, ids, layers);
          return;
        }
        PrefixNext(id, l);
        n := n / SIZE;
        up.bitmap := up.bitmap + {n % SIZE};
        MarkedUp(mem, was, ids, id, l, RecordOf(up));
        ChangedMem(at, mem, PathKey(id, l));
        BitmapOnly(at, mem, ids, PathKey(id, l), RecordOf(up));
        p := up;
      }
      MemAll(at);
      MarkStops(Mem(at), was, ids, id, l + 1);
      MakeSound(at, Mem(at), ids, layers);
    }

    /** Take the least id not in use for ptr, adding a layer if the tree is full; -1 when there is no id left. */
    method GetNewAboveInt(ptr: T) returns (v: int)
      requires Valid()
      modifies this, at.Values
      ensures Valid() && fresh(at.Values - old(at.Values))
      ensures v >= -1
      ensures v == -1 ==> ids == old(ids) && forall j: nat :: j < MAX_ID_BIT ==> j in ids
      ensures v >= 0 ==> v < MAX_ID_BIT && v !in old(ids) && ids == old(ids)[v := ptr]
      ensures v >= 0 ==> forall j: nat :: j < v ==> j in old(ids)
      ensures v >= 0 ==> layers > 0
      ensures layers == if v < 0 then old(layers) else Grown(old(ids), old(layers))
      ensures v < 0 ==> Grown(old(ids), old(layers)) == old(layers)
    {
      hide Sound, OccupiedBut, Occupied, Mem, FullAt, Power;
      ghost var was := ids;
      var id := 0;
      AllNeedSeven(at, Mem(at), ids, layers);
      v := -2;
      while v == -2
        invariant v >= -2 && Valid() && fresh(at.Values - old(at.Values))
        invariant v == -2 ==> ids == was && (id == 0 || (layers > 0 && id == Power(layers) && FullAt(ids, layers, 0)))
        invariant v == -1 ==> ids == was && forall j: nat :: j < MAX_ID_BIT ==> j in ids
        invariant v >= 0 ==> v < MAX_ID_BIT && v !in was && ids == was[v := ptr] && forall j: nat :: j < v ==> j in was
        invariant v >= 0 ==> layers > 0
        invariant v == -2 ==> layers == old(layers) && (id == 0 || FullAt(was, layers, 0))
        invariant v == -1 ==> layers == old(layers)
        invariant v >= 0 ==> layers == Grown(was, old(layers))
        decreases v < -1, id == 0
      {
        BuildUp(id);
        FullNotEmpty(ids, layers);
        v, id := SubAlloc(ptr, id);
      }
    }

    /** Put a new layer above p, the top of a tree of n layers. */
    method AddTop(p: Layer<T>, ghost n: nat) returns (pn: Layer<T>)
      requires n > 0 && Key(n - 1, 0) in at && p == at[Key(n - 1, 0)]
      requires Sound(at, Mem(at), ids, n)
      modifies this`at
      ensures fresh(pn) && at == old(at)[Key(n, 0) := pn]
      ensures Sound(at, Mem(at), ids, n + 1) && !FullAt(ids, n + 1, 0)
      ensures old(Occupied(Mem(at))) ==> Occupied(Mem(at))
    {
      hide Sound, Occupied, Mem, FullAt, Different, AllBits;
      MemAll(at);
      ghost var mem := Mem(at);
      pn := new Layer<T>();
      pn.ary := pn.ary[0 := Below(p)];
      pn.count := 1;
      if p.bitmap == AllBits() {
        pn.bitmap := pn.bitmap + {0};
      }
      assert pn !in at.Values;
      AboveAdded(at, mem, ids, n, pn, RecordOf(pn));
      AboveMem(at, mem, Key(n, 0), pn);
      at := at[Key(n, 0) := pn];
    }

    /** Put layers on top until there is room for id. */
    method BuildUp(id: nat)
      requires Valid()
      requires id == 0 || (layers > 0 && id == Power(layers) && FullAt(ids, layers, 0))
      modifies this`top, this`layers, this`at
      ensures Built() && fresh(at.Values - old(at.Values))
      ensures Start(ids, layers, id) && (Occupied(Mem(at)) || ids == map[])
      ensures id != 0 ==> !FullAt(ids, layers, 0)
      ensures old(layers) == 0 ==> layers == 1 && ids == map[]
      ensures old(layers) > 0 ==> layers == if id == 0 then old(layers) else old(layers) + 1
    {
      hide Sound, OccupiedBut, Occupied, Mem, FullAt, Power;
      var p, n := top, layers;
      if p == null {
        EmptyTree(at, ids);
        p := new Layer<T>();
        n := 1;
        at := map[Key(0, 0) := p];
        FirstLayer(p);
        MemIs(at, map[Key(0, 0) := Record({}, NoSlots(), 0)]);
      }
      while n < MAX_LEVEL && id >= Power(n)
        invariant 0 < n <= MAX_LEVEL && Key(n - 1, 0) in at && p == at[Key(n - 1, 0)]
        invariant Sound(at, Mem(at), ids, n)
        invariant old(layers) == 0 ==> n == 1 && id == 0 && ids == map[]
        invariant old(layers) > 0 ==> n == old(layers) || (id != 0 && n == old(layers) + 1)
        invariant Occupied(Mem(at)) || (id == 0 && ids == map[] && OccupiedBut(Mem(at), Key(n - 1, 0)))
        invariant || id == 0
                  || (id == Power(n) && FullAt(ids, n, 0))
                  || (n > 1 && id == Power(n - 1) && FullAt(ids, n - 1, 0) && !FullAt(ids, n, 0))
        invariant fresh(at.Values - old(at.Values))
        decreases MAX_LEVEL - n
      {
        PowerGrows(n);
        CountHere(at, Key(n - 1, 0));
        n := n + 1;
        if p.count == 0 {
          continue;
        }
        p := AddTop(p, n - 1);
      }
      if id != 0 && n == MAX_LEVEL {
        NeverSevenFull(at, Mem(at), ids, n);
      }
      top := p;
      layers := n;
      OccupiedIsBut(Mem(at), Key(n - 1, 0));
    }

    /** What the id's digits lead to, in a tree of that many layers. */
    method IdtreeLookup(id0: int) returns (r: Option<T>)
      requires Valid()
      ensures r == Looked(ids, layers, id0)
    {
      hide Sound, Occupied, Mem, FullAt, Wrap;
      var n := layers;
      var id := id0 % MAX_ID_BIT;
      if n * 5 + 5 < 31 && Prefix(id, n + 1) != 0 {
        return None;
      }
      var slot: Slot<T> := if top == null then Empty else Below(top);
      ghost var w := Wrap(id, layers);
      WrapTop(at, ids, layers, id);
      while n >= 1 && slot.Below?
        invariant 0 <= n <= layers
        invariant slot == Entry(at, ids, n, Prefix(w, n))
      {
        n := n - 1;
        SlotsHere(at, ids, layers, PathKey(w, n), Prefix(w, n) % SIZE);
        PathFacts(w, n);
        WrapDigits(id, layers, n);
        slot := slot.layer.ary[Prefix(id, n) % SIZE];
      }
      WhereItEnds(at, Mem(at), ids, layers, w, n);
      return if slot.User? then Some(slot.pointer) else None;
    }

    /** The subtree below p on the path of id will not be full. */
    method ClearBit(p: Layer<T>, n: nat, ghost id: nat, ghost level: nat, ghost now: map<nat, T>)
      requires Keys(at, layers) && Different(at)
      requires AllSlots(at, Mem(at), ids) && AllCounts(Mem(at)) && Occupied(Mem(at))
      requires OnlyDiffer(ids, now, id) && id !in now && MixedBits(Mem(at), now, ids, id, level + 1)
      requires PathKey(id, level) in at && p == at[PathKey(id, level)] && n == Prefix(id, level) % SIZE
      modifies p
      ensures AllSlots(at, Mem(at), ids) && AllCounts(Mem(at)) && Occupied(Mem(at))
      ensures MixedBits(Mem(at), now, ids, id, level)
      ensures p.ary == old(p.ary)
    {
      hide Occupied, Mem, FullAt, MixedBits, OnlyDiffer, Bits, Prefix, PathKey;
      hide Different, Keys, IdsIn, AllSlots, AllCounts, AllBitsSet;
      ghost var mem := Mem(at);
      MemAll(at);
      p.bitmap := p.bitmap - {n};
      ClearedDown(mem, now, ids, id, level, RecordOf(p));
      ChangedMem(at, mem, PathKey(id, level));
      BitmapOnly(at, mem, ids, PathKey(id, level), RecordOf(p));
    }

    /** The leaf layer's own bit and slot. */
    method TakeLeaf(p: Layer<T>, n: nat, ghost id: nat, ghost now: map<nat, T>)
      requires Keys(at, layers) && Different(at) && IdsIn(at, ids)
      requires AllSlots(at, Mem(at), ids) && AllCounts(Mem(at)) && Occupied(Mem(at))
      requires id in ids && now == ids - {id} && MixedBits(Mem(at), now, ids, id, 1)
      requires PathKey(id, 0) in at && p == at[PathKey(id, 0)] && n == id % SIZE && |p.ary| == SIZE
      modifies p, this`ids
      ensures ids == now && IdsIn(at, ids)
      ensures AllSlots(at, Mem(at), ids) && AllBitsSet(Mem(at), ids) && Occupied(Mem(at))
      ensures CountsBut(Mem(at), PathKey(id, 0))
    {
      hide Occupied, Mem, FullAt, MixedBits, Bits, Prefix, PathKey, CountsBut;
      hide Different, Keys, IdsIn, AllSlots, AllCounts, AllBitsSet;
      ghost var mem, was, c := Mem(at), ids, PathKey(id, 0);
      MemAll(at);
      p.bitmap := p.bitmap - {n};
      p.ary := p.ary[n := Empty];
      ids := now;
      TakenOut(at, mem, was, now, id, c, RecordOf(p));
      TakenOutBits(mem, was, now, id, c, RecordOf(p));
      FewerIds(at, was, id);
      ChangedMem(at, mem, c);
      StillOccupied(mem, c, RecordOf(p));
    }

    /** Go down along the digits of id as far as there are layers, clearing the bits on the way. */
    method GoDown(id0: nat, ghost id: nat, ghost now: map<nat, T>)
      returns (level: nat, p: Layer?<T>, path: seq<Layer<T>>)
      requires Valid() && layers > 0 && id == Wrap(id0, layers) && now == ids - {id}
      modifies at.Values
      ensures level < layers && (level == 0 || p == null)
      ensures |path| == layers - 1 - level && OnTheWay(at, path, id, layers)
      ensures p == if PathKey(id, level) in at then at[PathKey(id, level)] else null
      ensures Key(layers - 1, 0) in at && top == at[Key(layers - 1, 0)]
      ensures AllSlots(at, Mem(at), ids) && AllCounts(Mem(at)) && Occupied(Mem(at))
      ensures MixedBits(Mem(at), now, ids, id, level + 1)
      ensures Keys(at, layers) && Different(at) && IdsIn(at, ids)
    {
      hide Sound, Occupied, Mem, FullAt, Wrap, MixedBits, OnlyDiffer, Bits, Prefix, PathKey;
      hide Different, Keys, IdsIn, AllSlots, AllCounts, AllBitsSet;
      FewerDiffer(ids, id);
      level, p := layers - 1, top;
      path := [];
      SoundParts(at, Mem(at), ids, layers);
      BitsAreMixed(Mem(at), now, ids, id, at, layers);
      WrapDigits(id0, layers, layers - 1);
      TopOnPath(at, id, layers);
      while level > 0 && p != null
        invariant 0 <= level < layers
        invariant |path| == layers - 1 - level && OnTheWay(at, path, id, layers)
        invariant p == if PathKey(id, level) in at then at[PathKey(id, level)] else null
        invariant Key(layers - 1, 0) in at && top == at[Key(layers - 1, 0)]
        invariant AllSlots(at, Mem(at), ids) && AllCounts(Mem(at)) && Occupied(Mem(at))
        invariant MixedBits(Mem(at), now, ids, id, level + 1)
        invariant Keys(at, layers) && Different(at) && IdsIn(at, ids)
        decreases level
      {
        var n := Prefix(id0, level) % SIZE;
        WrapDigits(id0, layers, level);
        ClearBit(p, n, id, level, now);
        SlotOnPath(at, Mem(at), ids, id, level);
        MemAll(at);
        OnTheWayNext(at, path, path + [p], id, layers, level);
        path := path + [p];
        p := if p.ary[n].Below? then p.ary[n].layer else null;
        level := level - 1;
      }
    }

    /** Take the id that the digits lead to out of the tree; what becomes empty goes. */
    method SubRemove(id0: nat) returns (ok: bool)
      requires Valid()
      modifies this, at.Values
      ensures Valid() && at.Values <= old(at.Values)
      ensures ok <==> Wrap(id0, old(layers)) in old(ids)
      ensures ids == old(ids) - {Wrap(id0, old(layers))}
      ensures layers == old(layers) || (layers == 0 && ids == map[])
      ensures !ok ==> layers == old(layers)
    {
      hide Sound, Occupied, Mem, FullAt, Wrap, MixedBits, OnlyDiffer, Bits, Prefix, PathKey;
      hide Different, Keys, IdsIn, AllSlots, AllCounts, AllBitsSet;
      ghost var was, id := ids, Wrap(id0, layers);
      ghost var now := was - {id};
      if layers == 0 {
        EmptyTree(at, ids);
        return false;
      }
      var level, p, path := GoDown(id0, id, now);
      var n := id0 % SIZE;
      if p == null {
        AbsentId(at, was, layers, id, level);
        NothingTaken(Mem(at), was, now, id, level + 1);
        MemAll(at);
        MakeSound(at, Mem(at), ids, layers);
        return false;
      }
      WrapDigits(id0, layers, 0);
      DigitsZero(id0, id);
      MemAll(at);
      LeafBit(Mem(at), was, now, id);
      SizeHere(at, Mem(at), was, PathKey(id, 0));
      if n !in p.bitmap {
        NothingTaken(Mem(at), was, now, id, level + 1);
        MakeSound(at, Mem(at), ids, layers);
        return false;
      }
      TakeLeaf(p, n, id, now);
      Unlink(p, path, id0, id);
      return true;
    }

    /** Take an empty layer out of the one above it. */
    method TakeFrom(up: Layer<T>, n: nat, ghost id: nat, ghost l: nat)
      requires Sound(at, Mem(at), ids, layers) && OccupiedBut(Mem(at), PathKey(id, l)) && l + 1 < layers
      requires PathKey(id, l) in at && Unused(at[PathKey(id, l)].ary)
      requires PathKey(id, l + 1) in at && up == at[PathKey(id, l + 1)]
      requires n == Prefix(id, l + 1) % SIZE
      modifies this`at, up
      ensures at == old(at) - {PathKey(id, l)}
      ensures Keys(at, layers) && Different(at) && IdsIn(at, ids)
      ensures AllSlots(at, Mem(at), ids) && AllBitsSet(Mem(at), ids) && Occupied(Mem(at))
      ensures PathKey(id, l + 1) in at && CountsBut(Mem(at), PathKey(id, l + 1))
    {
      hide Sound, Occupied, OccupiedBut, Mem, CountsBut, Prefix, PathKey, Unused;
      hide Different, Keys, IdsIn, AllSlots, AllCounts, AllBitsSet;
      ghost var mem, k, above := Mem(at), PathKey(id, l), PathKey(id, l + 1);
      SoundParts(at, mem, ids, layers);
      MemAll(at);
      SlotOnPath(at, mem, ids, id, l + 1);
      up.ary := up.ary[n := Empty];
      LayerGone(at, mem, ids, layers, k, above, RecordOf(up));
      GoneMem(at, mem, k, above);
      GoneOccupied(mem, k, above, RecordOf(up));
      at := at - {k};
    }

    /** Count an entry less in the layer p; an empty layer is taken out of the one above. */
    method Unlink(leaf: Layer<T>, above: seq<Layer<T>>, id0: nat, ghost id: nat)
      requires 0 < layers <= MAX_LEVEL && Key(layers - 1, 0) in at && top == at[Key(layers - 1, 0)]
      requires Keys(at, layers) && Different(at) && IdsIn(at, ids)
      requires AllSlots(at, Mem(at), ids) && AllBitsSet(Mem(at), ids) && Occupied(Mem(at))
      requires PathKey(id, 0) in at && leaf == at[PathKey(id, 0)] && CountsBut(Mem(at), PathKey(id, 0))
      requires |above| == layers - 1 && OnTheWay(at, above, id, layers)
      requires id == Wrap(id0, layers)
      modifies this`top, this`layers, this`at, at.Values
      ensures Valid() && at.Values <= old(at.Values)
      ensures layers == old(layers) || (layers == 0 && ids == map[])
    {
      hide Sound, Occupied, Mem, FullAt, Wrap, CountsBut, Bits, Prefix, PathKey, Unused;
      hide Different, Keys, IdsIn, AllSlots, AllCounts, AllBitsSet, OnTheWay;
      var l, p, path := 0, leaf, above;
      WrapDigits(id0, layers, 0);
      while true
        invariant 0 <= l < layers == old(layers) && layers <= MAX_LEVEL
        invariant Key(layers - 1, 0) in at && top == at[Key(layers - 1, 0)]
        invariant Keys(at, layers) && Different(at) && IdsIn(at, ids)
        invariant AllSlots(at, Mem(at), ids) && AllBitsSet(Mem(at), ids) && Occupied(Mem(at))
        invariant PathKey(id, l) in at && p == at[PathKey(id, l)] && CountsBut(Mem(at), PathKey(id, l))
        invariant |path| == layers - 1 - l && OnTheWay(at, path, id, layers)
        invariant at.Values <= old(at.Values)
        decreases layers - l
      {
        ghost var mem, k, before := Mem(at), PathKey(id, l), at;
        MemAll(at);
        p.count := p.count - 1;
        ChangedMem(at, mem, k);
        CountedDown(at, mem, ids, layers, k, RecordOf(p));
        if p.count != 0 {
          return;
        }
        if |path| == 0 {
          TopOnPath(at, id, layers);
          TopGone(at, Mem(at), ids, layers);
          top := null;
          layers := 0;
          at := map[];
          EmptyMem<T>();
          return;
        }
        var up := path[|path| - 1];
        WrapDigits(id0, layers, l + 1);
        LastOnTheWay(at, path, id, layers, l);
        TakeFrom(up, Prefix(id0, l + 1) % SIZE, id, l);
        GoneWay(before, path, id, layers, l);
        TopIn(at, layers);
        p := up;
        path := path[..|path| - 1];
        l := l + 1;
      }
    }

    /** Remove an id; of an id beyond the tree only the digits that the tree has are looked at. */
    method IdtreeRemove(id0: int) returns (ok: bool)
      requires Valid()
      modifies this, at.Values
      ensures Valid() && at.Values <= old(at.Values)
      ensures ok <==> Aliased(id0, old(layers)) in old(ids)
      ensures ids == old(ids) - {Aliased(id0, old(layers))}
      ensures layers == if ok then Shrunk(ids, old(layers)) else old(layers)
    {
      hide Sound, Occupied, Mem, FullAt, Wrap, AllBelow;
      var id := id0 % MAX_ID_BIT;
      ok := SubRemove(id);
      if !ok {
        return;
      }
      NoLayersEmpty(at, Mem(at), ids, layers);
      if layers > 1 {
        TopRecord(at, ids, layers);
        MemAll(at);
        TopNeeded(at, Mem(at), ids, layers);
      }
      if top != null && layers > 1 && top.count == 1 && !top.ary[0].Empty? {
        DropLayer();
      }
    }

    /** The top only has its first entry: a layer can go. */
    method DropLayer()
      requires Valid() && layers > 1
      requires |top.ary| == SIZE && top.count == 1 && !top.ary[0].Empty?
      modifies this`top, this`layers, this`at, top
      ensures Valid() && at.Values <= old(at.Values) && layers == old(layers) - 1
    {
      hide Sound, Occupied, Mem, FullAt, Different;
      ghost var mem, k := Mem(at), Key(layers - 1, 0);
      MemAll(at);
      Dropped(at, mem, ids, layers);
      DroppedMem(at, mem, ids, layers, k);
      FewerOccupied(mem, k);
      var p := top.ary[0].layer;
      top.bitmap := {};
      top.count := 0;
      at := at - {k};
      MemIs(at, mem - {k});
      top := p;
      layers := layers - 1;
    }

    /** Take the least id not in use, unless it is above the limit. */
    method IdtreeAdd(ptr: T, limit: int) returns (r: int)
      requires Valid()
      modifies this, at.Values
      ensures Valid() && fresh(at.Values - old(at.Values))
      ensures r >= -1
      ensures r >= 0 ==> r <= limit && r < 0x8000_0000 && r !in old(ids) && ids == old(ids)[r := ptr]
      ensures r >= 0 ==> forall j: nat :: j < r ==> j in old(ids)
      ensures r == -1 ==> forall j: nat :: j <= limit && j < 0x8000_0000 ==> j in old(ids)
      ensures layers == if r >= 0 then Grown(old(ids), old(layers))
                        else if limit >= -1 && AllInUse(old(ids)) then old(layers)
                        else Shrunk(ids, Grown(old(ids), old(layers)))
      ensures r == -1 && (limit >= -1 || !AllInUse(old(ids))) ==> ids == old(ids)
      ensures r == -1 && limit < -1 && AllInUse(old(ids)) ==> ids == old(ids) - {0x7fff_ffff}
    {
      hide Sound, Occupied, Mem, FullAt, Wrap;
      ghost var was := ids;
      r := GetNewAboveInt(ptr);
      if r > limit {
        NewIsInside(at, Mem(at), ids, layers, r);
        var _ := IdtreeRemove(r);
        return -1;
      }
    }
  }

  lemma FullNotEmpty<T>(ids: map<nat, T>, layers: nat)
    ensures FullAt(ids, layers, 0) ==> ids != map[]
  {
    if FullAt(ids, layers, 0) {
      var id := FullHasOne(ids, layers, 0);
    }
  }

  // ---------- Ids beyond the tree ----------

  /** With only id 0 in use the id 32 looks as if it were in use too, and removing it removes id 0. */
  lemma BeyondTheTree<T>(p: T)
    ensures Looked(map[0 := p], 1, 32) == Some(p) && Get(map[0 := p], 32) == None
    ensures map[0 := p] - {Aliased(32, 1)} == map[] && map[0 := p] - {32} == map[0 := p]
  {
    PrefixOne(32);
    assert Prefix(32, 2) == Prefix(32, 1) / SIZE;
    assert Wrap(32, 1) == 0 + SIZE * Wrap(1, 0);
  }

  /** The same as a run from an empty tree: one addition, then a lookup and a removal of id 32. */
  method AliasingRun() returns (id: int, found: Option<char>, removed: bool)
    ensures id == 0 && found == Some('x') && removed
  {
    hide Sound, Occupied, Mem, Looked, Aliased, Get;
    var tree := new IdTree<char>();
    ghost var none := tree.ids;
    id := tree.IdtreeAdd('x', 100);
    assert 0 !in none;
    assert id == 0 && tree.ids == map[0 := 'x'];
    BeyondTheTree('x');
    found := tree.IdtreeLookup(32);
    removed := tree.IdtreeRemove(32);
  }

  /** With all ids in use, an addition with a limit below -1 removes the last one. */
  method FullTreeRun() returns (tree: IdTree<char>, ghost before: map<nat, char>, r: int)
    ensures AllInUse(before) && r == -1
    ensures tree.Valid() && tree.ids == before - {0x7fff_ffff} && tree.ids != before
  {
    hide Sound, Occupied, Mem, Looked, Aliased;
    tree := new IdTree<char>();
    var n: nat := 0;
    while n < MAX_ID_BIT
      invariant tree.Valid() && fresh(tree) && fresh(tree.at.Values) && n <= MAX_ID_BIT
      invariant forall j: nat :: j in tree.ids <==> j < n
    {
      before := tree.ids;
      var _ := tree.IdtreeAdd('x', MAX_ID_BIT - 1);
      assert n !in before;
      n := n + 1;
    }
    before := tree.ids;
    assert AllInUse(before) && MAX_ID_BIT - 1 in before;
    r := tree.IdtreeAdd('y', -2);
  }

  lemma FewerDiffer<T>(ids: map<nat, T>, id: nat)
    ensures OnlyDiffer(ids, ids - {id}, id)
  {
  }

  lemma TopOnPath<T>(at: Tree<T>, id: nat, layers: nat)
    requires layers > 0 && Prefix(id, layers) == 0
    ensures PathKey(id, layers - 1) == Key(layers - 1, 0)
  {
  }

  ghost predicate InPlace<T>(at: Tree<T>, k: Key, p: Layer<T>) {
    k in at && at[k] == p
  }

  /** The layers on the path of id, from the top down. */
  ghost predicate OnTheWay<T>(at: Tree<T>, path: seq<Layer<T>>, id: nat, layers: nat) {
    && |path| <= layers
    && forall i :: 0 <= i < |path| ==> InPlace(at, PathKey(id, layers - 1 - i), path[i])
  }

  lemma OnTheWayNext<T>(at: Tree<T>, path: seq<Layer<T>>, longer: seq<Layer<T>>, id: nat, layers: nat, level: nat)
    requires OnTheWay(at, path, id, layers) && |path| == layers - 1 - level && PathKey(id, level) in at
    requires longer == path + [at[PathKey(id, level)]]
    ensures OnTheWay(at, longer, id, layers)
  {
    forall i | 0 <= i < |longer|
      ensures InPlace(at, PathKey(id, layers - 1 - i), longer[i])
    {
      if i < |path| {
        assert longer[i] == path[i];
      }
    }
  }

  lemma LastOnTheWay<T>(at: Tree<T>, path: seq<Layer<T>>, id: nat, layers: nat, l: nat)
    requires OnTheWay(at, path, id, layers) && |path| == layers - 1 - l > 0
    ensures PathKey(id, l + 1) in at && path[|path| - 1] == at[PathKey(id, l + 1)]
  {
    assert InPlace(at, PathKey(id, layers - 1 - (|path| - 1)), path[|path| - 1]);
  }

  lemma GoneWay<T>(at: Tree<T>, path: seq<Layer<T>>, id: nat, layers: nat, l: nat)
    requires OnTheWay(at, path, id, layers) && |path| == layers - 1 - l > 0
    ensures OnTheWay(at - {PathKey(id, l)}, path[..|path| - 1], id, layers)
    ensures PathKey(id, l + 1) in at - {PathKey(id, l)}
  {
    LastOnTheWay(at, path, id, layers, l);
    var shorter := path[..|path| - 1];
    forall i | 0 <= i < |shorter|
      ensures InPlace(at - {PathKey(id, l)}, PathKey(id, layers - 1 - i), shorter[i])
    {
      assert shorter[i] == path[i];
    }
  }

  /** The slot for the next digit of id holds the next layer of its path. */
  lemma SlotOnPath<T>(at: Tree<T>, mem: Memory<T>, ids: map<nat, T>, id: nat, level: nat)
    requires level > 0 && AllSlots(at, mem, ids) && PathKey(id, level) in at
    ensures PathKey(id, level) in mem && |mem[PathKey(id, level)].ary| == SIZE
    ensures mem[PathKey(id, level)].ary[Prefix(id, level) % SIZE] ==
            if PathKey(id, level - 1) in at then Below(at[PathKey(id, level - 1)]) else Empty
    ensures PathKey(id, level - 1).prefix == Prefix(id, level) && PathKey(id, level - 1).level == level - 1
    ensures Parent(PathKey(id, level - 1)) == PathKey(id, level) != PathKey(id, level - 1)
  {
    PathFacts(id, level);
    EntryAt(at, mem, ids, PathKey(id, level), Prefix(id, level) % SIZE);
  }

  lemma AbsentId<T>(at: Tree<T>, ids: map<nat, T>, layers: nat, id: nat, level: nat)
    requires Keys(at, layers) && IdsIn(at, ids) && level < layers && PathKey(id, level) !in at
    ensures id !in ids
  {
    if id in ids {
      IdPath(at, ids, layers, id, level);
    }
  }

  lemma NothingTaken<T>(mem: Memory<T>, ids: map<nat, T>, now: map<nat, T>, id: nat, level: nat)
    requires id !in ids && now == ids - {id} && MixedBits(mem, now, ids, id, level)
    ensures now == ids && AllBitsSet(mem, ids)
  {
    hide Bits;
    assert now == ids;
  }

  lemma DigitsZero(id0: nat, id: nat)
    ensures Prefix(id0, 0) == id0 && Prefix(id, 0) == id
  {
  }

  lemma LeafBit<T>(mem: Memory<T>, ids: map<nat, T>, now: map<nat, T>, id: nat)
    requires MixedBits(mem, now, ids, id, 1) && PathKey(id, 0) in mem
    ensures id % SIZE in mem[PathKey(id, 0)].bitmap <==> id in ids
  {
    PathFacts(id, 0);
    assert Bits(ids, PathKey(id, 0), mem[PathKey(id, 0)].bitmap);
    BitSet(ids, id, 0, mem[PathKey(id, 0)].bitmap);
  }

  lemma StillOccupied<T>(mem: Memory<T>, k: Key, r: Record<T>)
    requires Occupied(mem) && k in mem && r.count == mem[k].count
    ensures Occupied(mem[k := r])
  {
  }

  lemma CountedDown<T>(at: Tree<T>, mem: Memory<T>, ids: map<nat, T>, layers: nat, k: Key, r: Record<T>)
    requires at.Keys == mem.Keys && Keys(at, layers) && Different(at) && IdsIn(at, ids)
    requires AllSlots(at, mem, ids) && AllBitsSet(mem, ids) && Occupied(mem) && CountsBut(mem, k)
    requires r == mem[k].(count := mem[k].count - 1)
    ensures Sound(at, mem[k := r], ids, layers)
    ensures |r.ary| == SIZE
    ensures r.count != 0 ==> Occupied(mem[k := r])
    ensures r.count == 0 ==> Unused(r.ary)
    ensures OccupiedBut(mem[k := r], k)
  {
    hide Keys, Different, IdsIn, Bits, Slots, Used, Unused;
    UsedUp(mem, k, r);
    SizeHere(at, mem, ids, k);
  }

  lemma SizeHere<T>(at: Tree<T>, mem: Memory<T>, ids: map<nat, T>, k: Key)
    requires AllSlots(at, mem, ids) && k in at
    ensures k in mem && |mem[k].ary| == SIZE
  {
  }

  lemma EmptyMem<T>()
    ensures Mem<T>(map[]) == map[] && Occupied(Mem<T>(map[]))
  {
    MemIs<T>(map[], map[]);
  }

  lemma GoneMem<T>(at: Tree<T>, mem: Memory<T>, k: Key, up: Key)
    requires at.Keys == mem.Keys && up in at && up != k && Different(at)
    requires forall j :: j in at && at[j] != at[up] ==> RecordOf(at[j]) == mem[j]
    ensures Mem(at - {k}) == (mem - {k})[up := RecordOf(at[up])]
  {
    MemIs(at - {k}, (mem - {k})[up := RecordOf(at[up])]);
  }

  lemma GoneOccupied<T>(mem: Memory<T>, k: Key, up: Key, r: Record<T>)
    requires OccupiedBut(mem, k) && up in mem && up != k && r.count == mem[up].count
    ensures Occupied((mem - {k})[up := r])
  {
  }

  lemma TopRecord<T>(at: Tree<T>, ids: map<nat, T>, layers: nat)
    requires Sound(at, Mem(at), ids, layers) && layers > 0 && Key(layers - 1, 0) in at
    ensures |at[Key(layers - 1, 0)].ary| == SIZE
  {
    SizeHere(at, Mem(at), ids, Key(layers - 1, 0));
  }

  lemma DroppedMem<T>(at: Tree<T>, mem: Memory<T>, ids: map<nat, T>, layers: nat, k: Key)
    requires Mem(at) == mem && k in at && Sound(at, mem, ids, layers)
    ensures forall j :: j in at - {k} ==> at[j] != at[k] && RecordOf(at[j]) == mem[j]
    ensures (at - {k}).Keys == (mem - {k}).Keys
  {
    hide Keys, IdsIn, AllSlots, AllCounts, AllBitsSet;
  }

  lemma FewerOccupied<T>(mem: Memory<T>, k: Key)
    requires Occupied(mem)
    ensures Occupied(mem - {k})
  {
  }

  /** A new id has no more digits than the tree. */
  lemma NewIsInside<T>(at: Tree<T>, mem: Memory<T>, ids: map<nat, T>, layers: nat, r: int)
    requires Sound(at, mem, ids, layers)
    requires r >= 0 ==> r in ids
    requires r == -1 ==> AllInUse(ids)
    requires r >= -1
    ensures r >= 0 ==> Aliased(r, layers) == r
    ensures r == -1 ==> Aliased(r, layers) == MAX_ID_BIT - 1
  {
    hide AllSlots, AllCounts, AllBitsSet, Wrap, FullAt;
    var i: nat := r % MAX_ID_BIT;
    assert i in ids && i < MAX_ID_BIT;
    IdBelow(at, ids, layers, i);
    WrapSmall(i, layers);
  }

  lemma IdsNeedLayers<T>(at: Tree<T>, ids: map<nat, T>)
    requires IdsIn(at, ids)
    ensures ids == map[] || exists k :: k in at
  {
    if id :| id in ids {
      assert Key(0, id / SIZE) in at;
    }
  }

  lemma EmptyTree<T>(at: Tree<T>, ids: map<nat, T>)
    requires Sound(at, Mem(at), ids, 0)
    ensures ids == map[]
  {
    IdsNeedLayers(at, ids);
    assert at.Keys == {};
  }

  lemma PowerGrows(n: nat)
    ensures Power(n) > 0 && Power(n + 1) == SIZE * Power(n)
    ensures n > 0 ==> Power(n) > Power(n - 1)
  {
  }

  lemma CountHere<T>(at: Tree<T>, k: Key)
    requires k in at
    ensures Occupied(Mem(at)) ==> at[k].count > 0
  {
    MemAll(at);
  }

  lemma AboveMem<T>(at: Tree<T>, mem: Memory<T>, c: Key, pn: Layer<T>)
    requires Mem(at) == mem
    ensures Mem(at[c := pn]) == mem[c := RecordOf(pn)]
  {
    MemIs(at[c := pn], mem[c := RecordOf(pn)]);
  }

  /** When all ids are in use there are seven layers, and the tree does not count as full. */
  lemma AllNeedSeven<T>(at: Tree<T>, mem: Memory<T>, ids: map<nat, T>, layers: nat)
    requires Sound(at, mem, ids, layers) && layers <= MAX_LEVEL
    ensures AllInUse(ids) ==> layers == 7 && !FullAt(ids, 7, 0)
  {
    hide AllSlots, AllCounts, AllBitsSet, FullAt;
    if AllInUse(ids) {
      var id: nat := 0x4000_0000;
      IdBelow(at, ids, layers, id);
      if layers < 7 {
        PrefixZeroUp(id, layers, 6);
        SixDigits();
      }
      NeverSevenFull(at, mem, ids, 7);
    }
  }

  lemma SixDigits()
    ensures Prefix(0x4000_0000, 6) == 1
  {
    var id: nat := 0x4000_0000;
    assert Prefix(id, 2) == Prefix(id, 1) / 32 == id / 1024;
    assert Prefix(id, 4) == Prefix(id, 3) / 32 == Prefix(id, 2) / 1024;
    assert Prefix(id, 6) == Prefix(id, 5) / 32 == Prefix(id, 4) / 1024;
  }

  lemma NeverSevenFull<T>(at: Tree<T>, mem: Memory<T>, ids: map<nat, T>, n: nat)
    requires Sound(at, mem, ids, n) && n == MAX_LEVEL
    ensures !FullAt(ids, n, 0)
  {
    SevenNotFull(at, ids);
  }

  lemma OccupiedIsBut<T>(mem: Memory<T>, k: Key)
    ensures Occupied(mem) ==> OccupiedBut(mem, k)
  {
  }

  lemma WrapTop<T>(at: Tree<T>, ids: map<nat, T>, layers: nat, id: nat)
    requires Sound(at, Mem(at), ids, layers)
    ensures Prefix(Wrap(id, layers), layers) == 0
    ensures layers == 0 ==> Entry(at, ids, 0, Prefix(Wrap(id, layers), 0)) == Empty
  {
    PrefixWrap(id, layers, layers);
    if layers == 0 {
      EmptyTree(at, ids);
    }
  }

  /** Where a walk ends tells whether the id is in use. */
  lemma WhereItEnds<T>(at: Tree<T>, mem: Memory<T>, ids: map<nat, T>, layers: nat, w: nat, n: nat)
    requires Sound(at, mem, ids, layers) && n <= layers
    requires n > 0 ==> Entry(at, ids, n, Prefix(w, n)).Empty?
    ensures Entry(at, ids, n, Prefix(w, n)) == if w in ids then User(ids[w]) else Empty
  {
    hide AllSlots, AllCounts, AllBitsSet;
    if n > 0 && w in ids {
      IdPath(at, ids, layers, w, n - 1);
    }
  }

  lemma PrefixNext(id: nat, l: nat)
    requires l > 0
    ensures Prefix(id, l) == Prefix(id, l - 1) / SIZE
  {
  }

  lemma SoundParts<T>(at: Tree<T>, mem: Memory<T>, ids: map<nat, T>, layers: nat)
    requires Sound(at, mem, ids, layers)
    ensures at.Keys == mem.Keys && Keys(at, layers) && Different(at) && IdsIn(at, ids)
    ensures AllSlots(at, mem, ids) && AllCounts(mem) && AllBitsSet(mem, ids)
  {
  }

  lemma MakeSound<T>(at: Tree<T>, mem: Memory<T>, ids: map<nat, T>, layers: nat)
    requires at.Keys == mem.Keys && Keys(at, layers) && Different(at) && IdsIn(at, ids)
    requires AllSlots(at, mem, ids) && AllCounts(mem) && AllBitsSet(mem, ids)
    ensures Sound(at, mem, ids, layers)
  {
  }

  lemma ChangedMem<T>(at: Tree<T>, mem: Memory<T>, k: Key)
    requires at.Keys == mem.Keys && k in at && Different(at)
    requires forall j :: j in at && at[j] != at[k] ==> RecordOf(at[j]) == mem[j]
    ensures Mem(at) == mem[k := RecordOf(at[k])]
  {
    MemIs(at, mem[k := RecordOf(at[k])]);
  }

  lemma BitmapOnly<T>(at: Tree<T>, mem: Memory<T>, ids: map<nat, T>, k: Key, r: Record<T>)
    requires at.Keys == mem.Keys && k in at && AllSlots(at, mem, ids) && AllCounts(mem) && Occupied(mem)
    requires r.ary == mem[k].ary && r.count == mem[k].count
    ensures AllSlots(at, mem[k := r], ids) && AllCounts(mem[k := r]) && Occupied(mem[k := r])
  {
    hide Slots, Used;
  }

  /** A full tree has some id in use. */
  lemma FullHasIds<T>(ids: map<nat, T>, layers: nat, w: int)
    requires w == -2 ==> FullAt(ids, layers, 0)
    requires w == -1 ==> forall j: nat :: j < MAX_ID_BIT ==> j in ids
    ensures w == -2 || w == -1 ==> ids != map[]
  {
    if w == -2 {
      var id := FullHasOne(ids, layers, 0);
    } else if w == -1 {
      assert 0 in ids;
    }
  }

  /** Where the way ends is the least id not in use. */
  lemma LeastHere<T>(at: Tree<T>, ids: map<nat, T>, layers: nat, id: nat, pa: seq<Layer?<T>>)
    requires Way(at, ids, layers, id, 0, pa)
    ensures forall j: nat :: j < id ==> j in ids
    ensures Passed(at, layers, id, 0, pa)
  {
    FullLeaves(ids, id);
  }

  lemma BitsHere<T>(at: Tree<T>, ids: map<nat, T>, layers: nat, k: Key)
    requires Sound(at, Mem(at), ids, layers) && k in at
    ensures Bits(ids, k, at[k].bitmap)
  {
    hide Bits, Slots, FullAt;
  }

  lemma SlotsHere<T>(at: Tree<T>, ids: map<nat, T>, layers: nat, k: Key, m: nat)
    requires Sound(at, Mem(at), ids, layers) && k in at && m < SIZE
    ensures |at[k].ary| == SIZE
    ensures at[k].ary[m] == Entry(at, ids, k.level, Joined(k.prefix, m))
    ensures k.level > 0 ==> at[k].ary[m].Empty? == (Child(k, m) !in at)
    ensures k.level > 0 && Child(k, m) in at ==> at[k].ary[m] == Below(at[Child(k, m)])
  {
    hide Bits, FullAt;
    EntryAt(at, Mem(at), ids, k, m);
  }

  /** A layer that has an entry is not the one that may be empty. */
  lemma OccupiedHere<T>(at: Tree<T>, ids: map<nat, T>, layers: nat, k: Key, m: nat, c: Key)
    requires Sound(at, Mem(at), ids, layers) && k in at && OccupiedBut(Mem(at), k)
    requires m < |at[k].ary| && !at[k].ary[m].Empty?
    ensures OccupiedBut(Mem(at), c) && Occupied(Mem(at))
  {
    hide Keys, IdsIn, AllSlots, AllBitsSet;
    MemAll(at);
    UsedNone(at[k].ary);
  }

  lemma ChildOnPath(id: nat, l: nat, m: nat)
    requires l > 0 && m < SIZE && Prefix(id, l) == Joined(Prefix(id, l + 1), m)
    ensures PathKey(id, l).level > 0 && Child(PathKey(id, l), m) == PathKey(id, l - 1)
  {
  }

  /** The top of a tree of seven layers. */
  lemma SixIsTop<T>(at: Tree<T>, ids: map<nat, T>, layers: nat, id: nat, l: nat, pa: seq<Layer?<T>>)
    requires Way(at, ids, layers, id, l, pa) && l == 6
    ensures l + 1 == layers && FullBefore(ids, 6, Prefix(id, l))
  {
  }

  lemma TopPrefix<T>(at: Tree<T>, ids: map<nat, T>, layers: nat, id: nat, l: nat, pa: seq<Layer?<T>>)
    requires Way(at, ids, layers, id, l, pa) && l + 1 == layers
    ensures Prefix(id, l + 1) == 0
  {
  }

  lemma TopNotFull<T>(at: Tree<T>, ids: map<nat, T>, layers: nat, id: nat, l: nat, pa: seq<Layer?<T>>)
    requires Way(at, ids, layers, id, l, pa) && !FullAt(ids, l, Prefix(id, l)) && l + 1 == layers
    ensures !FullAt(ids, layers, 0)
  {
    NotFullAbove(ids, id, l);
  }

  lemma MemAll<T>(at: Tree<T>)
    ensures Mem(at).Keys == at.Keys
    ensures forall k :: k in at ==> Mem(at)[k] == RecordOf(at[k])
  {
  }

  lemma DifferentOf<T>(at: Tree<T>, mem: Memory<T>, ids: map<nat, T>, layers: nat)
    requires Sound(at, mem, ids, layers)
    ensures Different(at) && at.Keys == mem.Keys
  {
  }

  lemma ChildMem<T>(was: Tree<T>, mem: Memory<T>, k: Key, c: Key, pn: Layer<T>)
    requires was.Keys == mem.Keys && k in was && c !in was && Different(was)
    requires forall j :: j in was && was[j] != was[k] ==> RecordOf(was[j]) == mem[j]
    requires RecordOf(pn) == Record({}, NoSlots(), 0)
    ensures Mem(was[c := pn]) == mem[k := RecordOf(was[k])][c := Record({}, NoSlots(), 0)]
  {
    MemIs(was[c := pn], mem[k := RecordOf(was[k])][c := Record({}, NoSlots(), 0)]);
  }
}
