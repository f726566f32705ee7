/** What single changes do to an id tree: a new layer, a planted pointer, a marked bit, a layer gone. */
module IdtreeSteps {
  import opened IdtreeLayers

  lemma EntryAt<T>(at: Tree<T>, mem: Memory<T>, ids: map<nat, T>, k: Key, m: nat)
    requires AllSlots(at, mem, ids) && k in at && m < SIZE
    ensures k in mem && |mem[k].ary| == SIZE && mem[k].ary[m] == Entry(at, ids, k.level, Joined(k.prefix, m))
  {
  }

  // ---------- A layer below ----------

  lemma NewLayerSlots<T>(at: Tree<T>, at': Tree<T>, ids: map<nat, T>, layers: nat, c: Key)
    requires Keys(at, layers) && IdsIn(at, ids) && c !in at && at'.Keys == at.Keys + {c} && c.level < layers
    requires c.level + 1 < layers || at == map[]
    ensures Slots(at', ids, c, NoSlots())
  {
    forall m: nat | m < SIZE
      ensures Entry(at', ids, c.level, Joined(c.prefix, m)) == Empty
    {
      var x := Joined(c.prefix, m);
      if c.level > 0 {
        assert Parent(Key(c.level - 1, x)) == c;
      }
    }
  }

  lemma ChildSlots<T>(at: Tree<T>, mem: Memory<T>, ids: map<nat, T>, layers: nat, k: Key, m: nat, pn: Layer<T>,
                      r: Record<T>)
    requires Keys(at, layers) && IdsIn(at, ids) && AllSlots(at, mem, ids)
    requires k in at && k.level > 0 && m < SIZE && Child(k, m) !in at && k in mem
    requires r.ary == mem[k].ary[m := Below(pn)]
    ensures AllSlots(at[Child(k, m) := pn], mem[k := r][Child(k, m) := Record({}, NoSlots(), 0)], ids)
  {
    hide Keys, IdsIn;
    var c := Child(k, m);
    var at', mem' := at[c := pn], mem[k := r][c := Record({}, NoSlots(), 0)];
    assert k.level < layers by { KeyLevel(at, layers, k); }
    NewLayerSlots(at, at', ids, layers, c);
    forall j | j in at'
      ensures j in mem' && Slots(at', ids, j, mem'[j].ary)
    {
      if j != c {
        forall i: nat | i < SIZE
          ensures mem'[j].ary[i] == Entry(at', ids, j.level, Joined(j.prefix, i))
        {
          EntryAt(at, mem, ids, j, i);
        }
      }
    }
  }

  lemma KeyLevel<T>(at: Tree<T>, layers: nat, k: Key)
    requires Keys(at, layers) && k in at
    ensures k.level < layers
  {
  }

  lemma ChildKeys<T>(at: Tree<T>, layers: nat, k: Key, m: nat, pn: Layer<T>)
    requires Keys(at, layers) && k in at && k.level > 0 && m < SIZE
    ensures Keys(at[Child(k, m) := pn], layers)
  {
  }

  lemma NewDifferent<T>(at: Tree<T>, c: Key, pn: Layer<T>)
    requires Different(at) && c !in at && pn !in at.Values
    ensures Different(at[c := pn])
  {
    assert forall j :: j in at ==> at[j] in at.Values;
  }

  lemma ChildCounts<T>(mem: Memory<T>, k: Key, m: nat, c: Key, s: Slot<T>, r: Record<T>)
    requires AllCounts(mem) && k in mem && m < |mem[k].ary| && mem[k].ary[m].Empty? && !s.Empty?
    requires r.ary == mem[k].ary[m := s] && r.count == mem[k].count + 1
    ensures AllCounts(mem[k := r][c := Record({}, NoSlots(), 0)])
    ensures AllCounts(mem[k := r])
  {
    hide Used, NoSlots;
    UsedChange(mem[k].ary, m, s);
    UsedNothing<T>();
  }

  lemma UsedNothing<T>()
    ensures Used<T>(NoSlots()) == 0
  {
    UsedNone<T>(NoSlots());
  }

  lemma NewLayerBits<T>(at: Tree<T>, ids: map<nat, T>, layers: nat, c: Key)
    requires Keys(at, layers) && IdsIn(at, ids) && c !in at && c.level < layers
    ensures Bits(ids, c, {})
  {
    hide Keys, IdsIn, FullAt;
    forall m: nat | m < SIZE
      ensures !FullAt(ids, c.level, Joined(c.prefix, m))
    {
      PrefixOne(Joined(c.prefix, m));
      AbsentNotFull(at, ids, layers, c, c.level, Joined(c.prefix, m));
    }
  }

  lemma PrefixOne(x: nat)
    ensures Prefix(x, 1) == x / SIZE
  {
    assert Prefix(x, 0) == x;
  }

  lemma ChildBits<T>(mem: Memory<T>, ids: map<nat, T>, k: Key, r: Record<T>, c: Key)
    requires AllBitsSet(mem, ids) && k in mem && r.bitmap == mem[k].bitmap && Bits(ids, c, {})
    ensures AllBitsSet(mem[k := r][c := Record({}, NoSlots(), 0)], ids)
  {
    hide Bits;
  }

  lemma ChildIds<T>(at: Tree<T>, ids: map<nat, T>, c: Key, pn: Layer<T>)
    requires IdsIn(at, ids)
    ensures IdsIn(at[c := pn], ids)
  {
  }

  /** A new empty layer put where one was missing. */
  lemma ChildAdded<T>(at: Tree<T>, mem: Memory<T>, ids: map<nat, T>, layers: nat, k: Key, m: nat, pn: Layer<T>,
                      r: Record<T>)
    requires Sound(at, mem, ids, layers)
    requires k in at && k.level > 0 && m < SIZE && pn !in at.Values
    requires |mem[k].ary| == SIZE && mem[k].ary[m].Empty?
    requires r == Record(mem[k].bitmap, mem[k].ary[m := Below(pn)], mem[k].count + 1)
    ensures Sound(at[Child(k, m) := pn], mem[k := r][Child(k, m) := Record({}, NoSlots(), 0)], ids, layers)
    ensures OccupiedBut(mem, k) ==>
              OccupiedBut(mem[k := r][Child(k, m) := Record({}, NoSlots(), 0)], Child(k, m))
    ensures Child(k, m) !in at
  {
    hide Keys, Different, IdsIn, AllSlots, AllCounts, AllBitsSet, Slots, Bits, FullAt;
    var c := Child(k, m);
    EntryAt(at, mem, ids, k, m);
    assert c !in at;
    KeyLevel(at, layers, k);
    ChildSlots(at, mem, ids, layers, k, m, pn, r);
    ChildKeys(at, layers, k, m, pn);
    NewDifferent(at, c, pn);
    ChildCounts(mem, k, m, c, Below(pn), r);
    NewLayerBits(at, ids, layers, c);
    ChildBits(mem, ids, k, r, c);
    ChildIds(at, ids, c, pn);
    CountPositive(mem, k);
  }

  lemma CountPositive<T>(mem: Memory<T>, k: Key)
    requires AllCounts(mem) && k in mem
    ensures mem[k].count >= 0
  {
  }

  // ---------- A layer above ----------

  lemma FirstLayer<T>(pn: Layer<T>)
    ensures Sound(map[Key(0, 0) := pn], map[Key(0, 0) := Record({}, NoSlots(), 0)], map[], 1)
    ensures OccupiedBut<T>(map[Key(0, 0) := Record({}, NoSlots(), 0)], Key(0, 0))
  {
    var ids: map<nat, T> := map[];
    UsedNothing<T>();
    hide Used;
    forall m: nat | m < SIZE
      ensures !FullAt(ids, 0, Joined(0, m))
    {
      NoneNotFull(ids, 0, Joined(0, m));
    }
  }

  lemma AboveSlots<T>(at: Tree<T>, mem: Memory<T>, ids: map<nat, T>, layers: nat, pn: Layer<T>, r: Record<T>)
    requires Keys(at, layers) && AllSlots(at, mem, ids) && layers > 0
    requires r.ary == NoSlots()[0 := Below(at[Key(layers - 1, 0)])]
    ensures AllSlots(at[Key(layers, 0) := pn], mem[Key(layers, 0) := r], ids)
  {
    var c := Key(layers, 0);
    var at', mem' := at[c := pn], mem[c := r];
    forall j, i: nat | j in at' && i < SIZE
      ensures j in mem' && |mem'[j].ary| == SIZE && mem'[j].ary[i] == Entry(at', ids, j.level, Joined(j.prefix, i))
    {
      if j == c {
        assert Key(layers - 1, i) in at ==> i == 0;
      } else {
        EntryAt(at, mem, ids, j, i);
      }
    }
  }

  lemma AboveKeys<T>(at: Tree<T>, layers: nat, pn: Layer<T>)
    requires Keys(at, layers) && layers > 0
    ensures Keys(at[Key(layers, 0) := pn], layers + 1)
    ensures Key(layers, 0) !in at
  {
  }

  lemma AboveBits<T>(at: Tree<T>, ids: map<nat, T>, layers: nat, bitmap: set<nat>)
    requires Keys(at, layers) && IdsIn(at, ids) && layers > 0
    requires bitmap == if FullAt(ids, layers, 0) then {0} else {}
    ensures Bits(ids, Key(layers, 0), bitmap)
  {
    forall m: nat | 0 < m < SIZE
      ensures !FullAt(ids, layers, Joined(0, m))
    {
      if FullAt(ids, layers, Joined(0, m)) {
        var id := FullHasOne(ids, layers, Joined(0, m));
        IdBelow(at, ids, layers, id);
      }
    }
  }

  /** A new top above the old one. */
  lemma AboveAdded<T>(at: Tree<T>, mem: Memory<T>, ids: map<nat, T>, layers: nat, pn: Layer<T>, r: Record<T>)
    requires Sound(at, mem, ids, layers) && layers > 0 && pn !in at.Values
    requires r == Record(if mem[Key(layers - 1, 0)].bitmap == AllBits() then {0} else {},
                         NoSlots()[0 := Below(at[Key(layers - 1, 0)])], 1)
    ensures Sound(at[Key(layers, 0) := pn], mem[Key(layers, 0) := r], ids, layers + 1)
    ensures Occupied(mem) ==> Occupied(mem[Key(layers, 0) := r])
    ensures !FullAt(ids, layers + 1, 0)
  {
    hide Keys, Different, IdsIn, AllSlots, Slots, Bits, FullAt, Used;
    var top := Key(layers - 1, 0);
    TopIn(at, layers);
    BitsAt(mem, ids, top);
    BitsFull(ids, top, mem[top].bitmap);
    AboveBits(at, ids, layers, r.bitmap);
    UsedOne(Below(at[top]));
    AboveFacts(at, mem, ids, layers, pn, r);
    AboveNotFull(ids, layers, r.bitmap);
  }

  lemma TopIn<T>(at: Tree<T>, layers: nat)
    requires Keys(at, layers) && layers > 0
    ensures Key(layers - 1, 0) in at
  {
  }

  lemma BitsAt<T>(mem: Memory<T>, ids: map<nat, T>, k: Key)
    requires AllBitsSet(mem, ids) && k in mem
    ensures Bits(ids, k, mem[k].bitmap)
  {
  }

  lemma UsedOne<T>(s: Slot<T>)
    requires !s.Empty?
    ensures Used(NoSlots()[0 := s]) == 1
  {
    UsedNone<T>(NoSlots());
    UsedChange(NoSlots(), 0, s);
  }

  lemma AboveNotFull<T>(ids: map<nat, T>, layers: nat, bitmap: set<nat>)
    requires Bits(ids, Key(layers, 0), bitmap) && 1 !in bitmap
    ensures !FullAt(ids, layers + 1, 0)
  {
    BitsFull(ids, Key(layers, 0), bitmap);
    assert 1 in AllBits();
  }

  lemma AboveFacts<T>(at: Tree<T>, mem: Memory<T>, ids: map<nat, T>, layers: nat, pn: Layer<T>, r: Record<T>)
    requires Sound(at, mem, ids, layers) && layers > 0 && pn !in at.Values
    requires r.ary == NoSlots()[0 := Below(at[Key(layers - 1, 0)])]
    requires r.count == Used(r.ary) && Bits(ids, Key(layers, 0), r.bitmap)
    ensures Sound(at[Key(layers, 0) := pn], mem[Key(layers, 0) := r], ids, layers + 1)
  {
    hide Keys, Different, IdsIn, AllSlots, Slots, Bits, FullAt, Used;
    AboveSlots(at, mem, ids, layers, pn, r);
    AboveKeys(at, layers, pn);
    NewDifferent(at, Key(layers, 0), pn);
    ChildIds(at, ids, Key(layers, 0), pn);
  }

  // ---------- Bits in between ----------

  /** On the path of id, from a level up, the bits are those for the first ids; elsewhere for the second. */
  ghost predicate MixedBits<T>(mem: Memory<T>, high: map<nat, T>, low: map<nat, T>, id: nat, level: nat) {
    forall k :: k in mem ==> Bits(if OnPath(id, k) && k.level >= level then high else low, k, mem[k].bitmap)
  }

  ghost predicate OnlyDiffer<T>(was: map<nat, T>, now: map<nat, T>, id: nat) {
    forall j :: j != id ==> (j in was <==> j in now)
  }

  lemma PathKeyOnly(id: nat, k: Key, level: nat)
    requires OnPath(id, k) && k.level == level
    ensures k == PathKey(id, level)
  {
  }

  lemma {:induction false} MarkedUp<T>(mem: Memory<T>, was: map<nat, T>, now: map<nat, T>, id: nat, level: nat,
                                       r: Record<T>)
    requires OnlyDiffer(was, now, id) && MixedBits(mem, was, now, id, level) && level > 0
    requires PathKey(id, level - 1) in mem && mem[PathKey(id, level - 1)].bitmap == AllBits()
    requires PathKey(id, level) in mem
    requires r.bitmap == mem[PathKey(id, level)].bitmap + {Prefix(id, level) % SIZE}
    ensures MixedBits(mem[PathKey(id, level) := r], was, now, id, level + 1)
  {
    hide Bits, FullAt, Prefix;
    var below, k := PathKey(id, level - 1), PathKey(id, level);
    assert Bits(now, below, mem[below].bitmap);
    BitsFull(now, below, mem[below].bitmap);
    PathFacts(id, level);
    BitsOnPath(was, now, id, level, mem[k].bitmap, r.bitmap);
    var mem' := mem[k := r];
    forall j | j in mem'
      ensures Bits(if OnPath(id, j) && j.level >= level + 1 then was else now, j, mem'[j].bitmap)
    {
      if OnPath(id, j) && j.level == level {
        PathKeyOnly(id, j, level);
      }
    }
  }

  lemma MarkStops<T>(mem: Memory<T>, was: map<nat, T>, now: map<nat, T>, id: nat, level: nat)
    requires OnlyDiffer(was, now, id) && MixedBits(mem, was, now, id, level) && level > 0 && id !in was
    requires PathKey(id, level - 1) in mem && mem[PathKey(id, level - 1)].bitmap != AllBits()
    ensures AllBitsSet(mem, now)
  {
    hide Bits, FullAt, Prefix;
    var below := PathKey(id, level - 1);
    assert Bits(now, below, mem[below].bitmap);
    BitsFull(now, below, mem[below].bitmap);
    forall j | j in mem
      ensures Bits(now, j, mem[j].bitmap)
    {
      if OnPath(id, j) && j.level >= level {
        PathKeyOnly(id, j, j.level);
        NotFull(was, id, j.level);
        NotFullUp(now, id, level, j.level);
        BitUnset(was, id, j.level, mem[j].bitmap);
        BitsOnPath(was, now, id, j.level, mem[j].bitmap, mem[j].bitmap);
      }
    }
  }

  lemma BitUnset<T>(ids: map<nat, T>, id: nat, level: nat, bitmap: set<nat>)
    requires Bits(ids, PathKey(id, level), bitmap) && !FullAt(ids, level, Prefix(id, level))
    ensures bitmap - {Prefix(id, level) % SIZE} == bitmap
  {
    PathFacts(id, level);
  }

  lemma BitSet<T>(ids: map<nat, T>, id: nat, level: nat, bitmap: set<nat>)
    requires Bits(ids, PathKey(id, level), bitmap)
    ensures Prefix(id, level) % SIZE in bitmap <==> FullAt(ids, level, Prefix(id, level))
  {
    PathFacts(id, level);
  }

  lemma MarkedAll<T>(mem: Memory<T>, at: Tree<T>, was: map<nat, T>, now: map<nat, T>, id: nat, layers: nat)
    requires MixedBits(mem, was, now, id, layers) && Keys(at, layers) && at.Keys == mem.Keys
    ensures AllBitsSet(mem, now)
  {
    hide Bits;
  }

  /** Clearing the bit of a digit on the way down. */
  lemma ClearedDown<T>(mem: Memory<T>, now: map<nat, T>, was: map<nat, T>, id: nat, level: nat, r: Record<T>)
    requires OnlyDiffer(was, now, id) && id !in now && MixedBits(mem, now, was, id, level + 1)
    requires PathKey(id, level) in mem
    requires r.bitmap == mem[PathKey(id, level)].bitmap - {Prefix(id, level) % SIZE}
    ensures MixedBits(mem[PathKey(id, level) := r], now, was, id, level)
  {
    hide Bits, FullAt, Prefix;
    var k := PathKey(id, level);
    PathFacts(id, level);
    assert Bits(was, k, mem[k].bitmap);
    NotFull(now, id, level);
    BitsOnPath(was, now, id, level, mem[k].bitmap, r.bitmap);
    var mem' := mem[k := r];
    forall j | j in mem'
      ensures Bits(if OnPath(id, j) && j.level >= level then now else was, j, mem'[j].bitmap)
    {
      if OnPath(id, j) && j.level == level {
        PathKeyOnly(id, j, level);
      }
    }
  }

  lemma ClearedAll<T>(mem: Memory<T>, now: map<nat, T>, was: map<nat, T>, id: nat)
    requires OnlyDiffer(was, now, id) && MixedBits(mem, now, was, id, 0)
    ensures AllBitsSet(mem, now)
  {
    hide Bits, OnPath;
    forall j | j in mem
      ensures Bits(now, j, mem[j].bitmap)
    {
      if !OnPath(id, j) {
        BitsOther(was, now, id, j, mem[j].bitmap);
      }
    }
  }

  lemma BitsAreMixed<T>(mem: Memory<T>, high: map<nat, T>, low: map<nat, T>, id: nat, at: Tree<T>, layers: nat)
    requires AllBitsSet(mem, low) && Keys(at, layers) && at.Keys == mem.Keys
    ensures MixedBits(mem, high, low, id, layers)
  {
    hide Bits;
  }

  // ---------- Planting a pointer ----------

  lemma PlantedSlots<T>(at: Tree<T>, mem: Memory<T>, was: map<nat, T>, now: map<nat, T>, id: nat, r: Record<T>)
    requires AllSlots(at, mem, was) && PathKey(id, 0) in at && PathKey(id, 0) in mem
    requires forall j :: j != id ==> (j in was <==> j in now)
    requires forall j :: j != id && j in was ==> was[j] == now[j]
    requires |mem[PathKey(id, 0)].ary| == SIZE
    requires r.ary == mem[PathKey(id, 0)].ary[id % SIZE := if id in now then User(now[id]) else Empty]
    ensures AllSlots(at, mem[PathKey(id, 0) := r], now)
  {
    var c := PathKey(id, 0);
    var mem' := mem[c := r];
    PrefixOne(id);
    forall j, i: nat | j in at && i < SIZE
      ensures j in mem' && |mem'[j].ary| == SIZE && mem'[j].ary[i] == Entry(at, now, j.level, Joined(j.prefix, i))
    {
      EntryAt(at, mem, was, j, i);
      if j.level == 0 && Joined(j.prefix, i) == id {
        assert j == c && i == id % SIZE;
      }
    }
  }

  /** The pointer is in its slot; the bits above may not be right yet. */
  lemma Planted<T>(at: Tree<T>, mem: Memory<T>, ids: map<nat, T>, layers: nat, id: nat, p: T, c: Key, r: Record<T>,
                   now: map<nat, T>)
    requires Sound(at, mem, ids, layers) && c == PathKey(id, 0) && c in at && id !in ids && id < MAX_ID_BIT
    requires r == Record(mem[c].bitmap + {id % SIZE}, mem[c].ary[id % SIZE := User(p)], mem[c].count + 1)
    requires now == ids[id := p]
    ensures OnlyDiffer(ids, now, id) && IdsIn(at, now)
    ensures AllSlots(at, mem[c := r], now) && AllCounts(mem[c := r])
    ensures MixedBits(mem[c := r], ids, now, id, 1)
    ensures OccupiedBut(mem, c) ==> Occupied(mem[c := r])
  {
    assert OnlyDiffer(ids, now, id);
    PrefixOne(id);
    assert Key(0, id / SIZE) == c && Prefix(id, 0) == id;
    hide Keys, Different, AllSlots, Bits, FullAt, Prefix, Used;
    LeafEntry(at, mem, ids, id);
    PlantedSlots(at, mem, ids, now, id, r);
    ChildCounts(mem, c, id % SIZE, c, User(p), r);
    LeafFull(now, id);
    BitsOnPath(ids, now, id, 0, mem[c].bitmap, r.bitmap);
    PlantedBits(mem, ids, now, id, r);
  }

  lemma LeafFull<T>(ids: map<nat, T>, id: nat)
    ensures FullAt(ids, 0, id) <==> id in ids
  {
  }

  lemma LeafEntry<T>(at: Tree<T>, mem: Memory<T>, ids: map<nat, T>, id: nat)
    requires AllSlots(at, mem, ids) && PathKey(id, 0) in at
    ensures PathKey(id, 0) in mem && |mem[PathKey(id, 0)].ary| == SIZE
    ensures mem[PathKey(id, 0)].ary[id % SIZE] == if id in ids then User(ids[id]) else Empty
  {
    PathFacts(id, 0);
    EntryAt(at, mem, ids, PathKey(id, 0), id % SIZE);
  }

  lemma PlantedBits<T>(mem: Memory<T>, was: map<nat, T>, now: map<nat, T>, id: nat, r: Record<T>)
    requires AllBitsSet(mem, was) && OnlyDiffer(was, now, id) && PathKey(id, 0) in mem
    requires Bits(now, PathKey(id, 0), r.bitmap)
    ensures MixedBits(mem[PathKey(id, 0) := r], was, now, id, 1)
  {
    hide Bits;
    var mem' := mem[PathKey(id, 0) := r];
    forall j | j in mem'
      ensures Bits(if OnPath(id, j) && j.level >= 1 then was else now, j, mem'[j].bitmap)
    {
      if OnPath(id, j) {
        if j.level == 0 {
          PathKeyOnly(id, j, 0);
        }
      } else {
        BitsOther(was, now, id, j, mem[j].bitmap);
      }
    }
  }

  // ---------- Taking a pointer out ----------

  /** The slot is empty; the layer's count may be one too many. */
  ghost predicate CountsBut<T>(mem: Memory<T>, k: Key) {
    && k in mem
    && mem[k].count == Used(mem[k].ary) + 1
    && forall j :: j in mem && j != k ==> mem[j].count == Used(mem[j].ary)
  }

  lemma EmptiedCounts<T>(mem: Memory<T>, k: Key, m: nat, r: Record<T>)
    requires AllCounts(mem) && k in mem && m < |mem[k].ary| && !mem[k].ary[m].Empty?
    requires r.ary == mem[k].ary[m := Empty] && r.count == mem[k].count
    ensures CountsBut(mem[k := r], k)
  {
    UsedChange(mem[k].ary, m, Empty);
  }

  lemma TakenOut<T>(at: Tree<T>, mem: Memory<T>, ids: map<nat, T>, now: map<nat, T>, id: nat, c: Key, r: Record<T>)
    requires AllSlots(at, mem, ids) && AllCounts(mem)
    requires c in at && c in mem && id in ids && now == ids - {id} && c == PathKey(id, 0)
    requires r == Record(mem[c].bitmap - {id % SIZE}, mem[c].ary[id % SIZE := Empty], mem[c].count)
    ensures AllSlots(at, mem[c := r], now) && CountsBut(mem[c := r], c)
  {
    hide AllSlots, PathKey, AllCounts, CountsBut;
    LeafEntry(at, mem, ids, id);
    PlantedSlots(at, mem, ids, now, id, r);
    EmptiedCounts(mem, c, id % SIZE, r);
  }

  lemma TakenOutBits<T>(mem: Memory<T>, ids: map<nat, T>, now: map<nat, T>, id: nat, c: Key, r: Record<T>)
    requires c in mem && now == ids - {id} && c == PathKey(id, 0) && MixedBits(mem, now, ids, id, 1)
    requires r.bitmap == mem[c].bitmap - {id % SIZE}
    ensures AllBitsSet(mem[c := r], now)
  {
    assert OnlyDiffer(ids, now, id);
    assert Prefix(id, 0) == id;
    hide PathKey, MixedBits, AllBitsSet, OnlyDiffer, Prefix;
    ClearedDown(mem, now, ids, id, 0, r);
    ClearedAll(mem[c := r], now, ids, id);
  }

  lemma FewerIds<T>(at: Tree<T>, ids: map<nat, T>, id: nat)
    requires IdsIn(at, ids)
    ensures IdsIn(at, ids - {id})
  {
  }

  predicate Unused<T>(ary: seq<Slot<T>>) {
    |ary| == SIZE && forall m :: 0 <= m < SIZE ==> ary[m].Empty?
  }

  lemma UsedUp<T>(mem: Memory<T>, k: Key, r: Record<T>)
    requires CountsBut(mem, k) && r.ary == mem[k].ary && r.count == mem[k].count - 1
    ensures AllCounts(mem[k := r])
    ensures r.count == 0 && |r.ary| == SIZE ==> Unused(r.ary)
  {
    UsedNone(r.ary);
  }

  /** Nothing hangs below a layer without entries. */
  lemma NothingBelow<T>(at: Tree<T>, mem: Memory<T>, ids: map<nat, T>, k: Key, j: Key)
    requires AllSlots(at, mem, ids) && k in at && j in at && k.level == j.level + 1 && j.prefix / SIZE == k.prefix
    ensures k in mem && |mem[k].ary| == SIZE && mem[k].ary[j.prefix % SIZE] == Below(at[j])
  {
    assert Joined(k.prefix, j.prefix % SIZE) == j.prefix;
    EntryAt(at, mem, ids, k, j.prefix % SIZE);
  }

  lemma GoneKeys<T>(at: Tree<T>, mem: Memory<T>, ids: map<nat, T>, layers: nat, k: Key)
    requires Keys(at, layers) && AllSlots(at, mem, ids) && k in at && k in mem && k.level + 1 < layers
    requires Unused(mem[k].ary)
    ensures Keys(at - {k}, layers)
    ensures Parent(k) in at - {k}
  {
    var at' := at - {k};
    forall j | j in at' && j.level + 1 < layers
      ensures Parent(j) in at'
    {
      if Parent(j) == k {
        NothingBelow(at, mem, ids, k, j);
      }
    }
  }

  lemma GoneIds<T>(at: Tree<T>, mem: Memory<T>, ids: map<nat, T>, k: Key)
    requires IdsIn(at, ids) && AllSlots(at, mem, ids) && k in at && k in mem
    requires Unused(mem[k].ary)
    ensures IdsIn(at - {k}, ids)
  {
    forall id | id in ids
      ensures Key(0, id / SIZE) in at - {k}
    {
      if Key(0, id / SIZE) == k {
        PrefixOne(id);
        LeafEntry(at, mem, ids, id);
      }
    }
  }

  lemma GoneSlots<T>(at: Tree<T>, mem: Memory<T>, ids: map<nat, T>, k: Key, up: Key, r: Record<T>)
    requires AllSlots(at, mem, ids) && k in at && up in at && up in mem && |mem[up].ary| == SIZE
    requires up == Parent(k)
    requires r.ary == mem[up].ary[k.prefix % SIZE := Empty]
    ensures AllSlots(at - {k}, (mem - {k})[up := r], ids)
  {
    var at', mem' := at - {k}, (mem - {k})[up := r];
    forall j, i: nat | j in at' && i < SIZE
      ensures j in mem' && |mem'[j].ary| == SIZE && mem'[j].ary[i] == Entry(at', ids, j.level, Joined(j.prefix, i))
    {
      EntryAt(at, mem, ids, j, i);
      if j.level > 0 && Key(j.level - 1, Joined(j.prefix, i)) == k {
        assert j == up && i == k.prefix % SIZE;
      }
    }
  }

  lemma GoneBits<T>(mem: Memory<T>, ids: map<nat, T>, k: Key, up: Key, r: Record<T>)
    requires AllBitsSet(mem, ids) && up in mem && r.bitmap == mem[up].bitmap
    ensures AllBitsSet((mem - {k})[up := r], ids)
  {
    hide Bits;
  }

  lemma GoneCounts<T>(mem: Memory<T>, k: Key, up: Key, m: nat, r: Record<T>)
    requires AllCounts(mem) && up in mem && up != k && m < |mem[up].ary| && !mem[up].ary[m].Empty?
    requires r.ary == mem[up].ary[m := Empty] && r.count == mem[up].count
    ensures CountsBut((mem - {k})[up := r], up)
  {
    UsedChange(mem[up].ary, m, Empty);
  }

  /** An empty layer is forgotten by the one above it. */
  lemma LayerGone<T>(at: Tree<T>, mem: Memory<T>, ids: map<nat, T>, layers: nat, k: Key, up: Key, r: Record<T>)
    requires Sound(at, mem, ids, layers) && k.level + 1 < layers
    requires k in mem && Unused(mem[k].ary)
    requires up == Parent(k) && up in mem && |mem[up].ary| == SIZE
    requires r == mem[up].(ary := mem[up].ary[k.prefix % SIZE := Empty])
    ensures var at', mem' := at - {k}, (mem - {k})[up := r];
            && at'.Keys == mem'.Keys && Keys(at', layers) && Different(at') && IdsIn(at', ids)
            && AllSlots(at', mem', ids) && AllBitsSet(mem', ids) && CountsBut(mem', up)
  {
    hide Keys, Different, IdsIn, AllSlots, Bits, FullAt, AllBitsSet, AllCounts, CountsBut, Unused;
    GoneKeys(at, mem, ids, layers, k);
    GoneIds(at, mem, ids, k);
    GoneSlots(at, mem, ids, k, up, r);
    GoneBits(mem, ids, k, up, r);
    NothingBelow(at, mem, ids, up, k);
    GoneCounts(mem, k, up, k.prefix % SIZE, r);
    FewerDifferent(at, k);
  }

  lemma FewerDifferent<T>(at: Tree<T>, k: Key)
    requires Different(at)
    ensures Different(at - {k})
  {
  }

  /** When the top is empty there is nothing left. */
  lemma TopGone<T>(at: Tree<T>, mem: Memory<T>, ids: map<nat, T>, layers: nat)
    requires Sound(at, mem, ids, layers) && layers > 0
    requires Unused(mem[Key(layers - 1, 0)].ary)
    ensures at.Keys == {Key(layers - 1, 0)} && ids == map[]
    ensures Sound<T>(map[], map[], map[], 0)
  {
    var top := Key(layers - 1, 0);
    hide Different, AllCounts, AllBitsSet;
    forall j | j in at
      ensures j == top
    {
      OnlyTop(at, mem, ids, layers, j);
    }
    if id :| id in ids {
      OnlyTop(at, mem, ids, layers, Key(0, id / SIZE));
      PrefixOne(id);
      LeafEntry(at, mem, ids, id);
      assert false;
    }
    EmptySound<T>();
  }

  lemma EmptySound<T>()
    ensures Sound<T>(map[], map[], map[], 0)
  {
  }

  lemma OnlyTop<T>(at: Tree<T>, mem: Memory<T>, ids: map<nat, T>, layers: nat, j: Key)
    requires Keys(at, layers) && AllSlots(at, mem, ids) && layers > 0 && j in at
    requires Key(layers - 1, 0) in mem && Unused(mem[Key(layers - 1, 0)].ary)
    ensures j == Key(layers - 1, 0)
    decreases layers - j.level
  {
    if j.level + 1 < layers {
      var up := Parent(j);
      OnlyTop(at, mem, ids, layers, up);
      NothingBelow(at, mem, ids, up, j);
    }
  }

  // ---------- A layer dropped ----------

  lemma OnlyChild<T>(ary: seq<Slot<T>>, m: nat)
    requires Used(ary) == 1 && m < |ary| && !ary[m].Empty?
    ensures forall i :: 0 <= i < |ary| && i != m ==> ary[i].Empty?
  {
    UsedChange(ary, m, Empty);
    UsedNone(ary[m := Empty]);
    var t := ary[m := Empty];
    assert forall i :: 0 <= i < |ary| && i != m ==> t[i] == ary[i];
  }

  lemma DroppedKeys<T>(at: Tree<T>, mem: Memory<T>, ids: map<nat, T>, layers: nat)
    requires layers > 1 && Key(layers - 1, 0) in at && Keys(at, layers) && AllSlots(at, mem, ids)
    requires Key(layers - 1, 0) in mem && OnlyFirst(mem[Key(layers - 1, 0)].ary)
    ensures Keys(at - {Key(layers - 1, 0)}, layers - 1)
    ensures Key(layers - 2, 0) in at && mem[Key(layers - 1, 0)].ary[0] == Below(at[Key(layers - 2, 0)])
  {
    hide *;
    DroppedEntry(at, mem, ids, layers);
    forall j | j in at && j.level + 2 == layers
      ensures j.prefix == 0
    {
      OneBelowTop(at, mem, ids, layers, j);
    }
    KeysWithoutTop(at, layers);
  }

  lemma OneBelowTop<T>(at: Tree<T>, mem: Memory<T>, ids: map<nat, T>, layers: nat, j: Key)
    requires Keys(at, layers) && AllSlots(at, mem, ids) && j in at && j.level + 2 == layers
    requires Key(layers - 1, 0) in mem && OnlyFirst(mem[Key(layers - 1, 0)].ary)
    ensures j.prefix == 0
  {
    hide AllSlots;
    assert Parent(j).prefix == 0;
    NothingBelow(at, mem, ids, Key(layers - 1, 0), j);
  }

  lemma KeysWithoutTop<T>(at: Tree<T>, layers: nat)
    requires Keys(at, layers) && layers > 1 && Key(layers - 2, 0) in at
    requires forall j :: j in at && j.level + 2 == layers ==> j.prefix == 0
    ensures Keys(at - {Key(layers - 1, 0)}, layers - 1)
  {
  }

  predicate OnlyFirst<T>(ary: seq<Slot<T>>) {
    |ary| == SIZE && !ary[0].Empty? && forall m :: 0 < m < SIZE ==> ary[m].Empty?
  }

  // ---------- How many layers there are ----------

  /** All ids in use have no more than n digits. */
  ghost predicate AllBelow<T>(ids: map<nat, T>, n: nat) {
    forall id :: id in ids ==> Prefix(id, n) == 0
  }

  /** The layers after an id has been taken for: one more if the tree was full. */
  ghost function Grown<T>(ids: map<nat, T>, layers: nat): nat {
    if layers == 0 then 1 else if FullAt(ids, layers, 0) then layers + 1 else layers
  }

  /** The layers after a removal, by what is left: none at all, or one less if the top is not needed. */
  ghost function Shrunk<T>(ids: map<nat, T>, layers: nat): nat {
    if ids == map[] then 0 else if layers > 1 && AllBelow(ids, layers - 1) then layers - 1 else layers
  }

  /** Every layer that is there has an id below it. */
  lemma {:induction false} SomeIdBelow<T>(at: Tree<T>, mem: Memory<T>, ids: map<nat, T>, k: Key) returns (id: nat)
    requires AllSlots(at, mem, ids) && AllCounts(mem) && Occupied(mem) && k in at && k in mem
    ensures id in ids && Prefix(id, k.level + 1) == k.prefix
    decreases k.level
  {
    UsedNone(mem[k].ary);
    EntryAt(at, mem, ids, k, 0);
    var m :| 0 <= m < |mem[k].ary| && !mem[k].ary[m].Empty?;
    EntryAt(at, mem, ids, k, m);
    var x := Joined(k.prefix, m);
    if k.level == 0 {
      id := x;
      assert Prefix(id, 1) == Prefix(id, 0) / SIZE;
    } else {
      EntryAt(at, mem, ids, Key(k.level - 1, x), 0);
      id := SomeIdBelow(at, mem, ids, Key(k.level - 1, x));
      assert Prefix(id, k.level + 1) == Prefix(id, k.level) / SIZE;
    }
  }

  lemma NoLayersEmpty<T>(at: Tree<T>, mem: Memory<T>, ids: map<nat, T>, layers: nat)
    requires Sound(at, mem, ids, layers) && Occupied(mem)
    ensures ids == map[] <==> layers == 0
  {
    hide AllSlots, AllCounts, Occupied;
    if layers > 0 {
      TopIn(at, layers);
      var id := SomeIdBelow(at, mem, ids, Key(layers - 1, 0));
    } else if id :| id in ids {
      IdBelow(at, ids, layers, id);
    }
  }

  lemma OneUsed<T>(ary: seq<Slot<T>>)
    requires OnlyFirst(ary)
    ensures Used(ary) == 1
  {
    UsedNone(ary[1..]);
    assert forall m :: 0 <= m < |ary[1..]| ==> ary[1..][m] == ary[m + 1];
  }

  /** The top has no entry but the first exactly if all ids do without its digit. */
  lemma TopNeeded<T>(at: Tree<T>, mem: Memory<T>, ids: map<nat, T>, layers: nat)
    requires Sound(at, mem, ids, layers) && Occupied(mem) && layers > 1 && Key(layers - 1, 0) in mem
    ensures |mem[Key(layers - 1, 0)].ary| == SIZE
    ensures mem[Key(layers - 1, 0)].count == 1 && !mem[Key(layers - 1, 0)].ary[0].Empty? <==> AllBelow(ids, layers - 1)
  {
    var top := Key(layers - 1, 0);
    TopIn(at, layers);
    EntryAt(at, mem, ids, top, 0);
    var ary := mem[top].ary;
    assert mem[top].count == Used(ary);
    hide Sound, AllCounts, Keys, IdsIn, AllBitsSet, Different;
    if Used(ary) == 1 && !ary[0].Empty? {
      OnlyChild(ary, 0);
      forall id | id in ids
        ensures Prefix(id, layers - 1) == 0
      {
        DigitOfTop(at, mem, ids, layers, id);
      }
    }
    if AllBelow(ids, layers - 1) {
      forall m: nat | m < SIZE && !ary[m].Empty?
        ensures m == 0
      {
        TopEntry(at, mem, ids, layers, m);
      }
      UsedNone(ary);
      OccupiedTop(mem, top);
      OneUsed(ary);
    }
  }

  lemma OccupiedTop<T>(mem: Memory<T>, k: Key)
    requires Occupied(mem) && k in mem
    ensures mem[k].count > 0
  {
  }

  /** An id has an entry of the top for its first digit. */
  lemma DigitOfTop<T>(at: Tree<T>, mem: Memory<T>, ids: map<nat, T>, layers: nat, id: nat)
    requires Sound(at, mem, ids, layers) && layers > 1 && id in ids && Key(layers - 1, 0) in mem
    ensures var x := Prefix(id, layers - 1);
            x < SIZE && |mem[Key(layers - 1, 0)].ary| == SIZE && !mem[Key(layers - 1, 0)].ary[x].Empty?
  {
    hide AllSlots, AllCounts, AllBitsSet, Different;
    TopIn(at, layers);
    IdBelow(at, ids, layers, id);
    IdPath(at, ids, layers, id, layers - 2);
    var x := Prefix(id, layers - 1);
    assert Prefix(id, layers) == x / SIZE;
    EntryAt(at, mem, ids, Key(layers - 1, 0), x);
    assert Joined(0, x) == x;
  }

  /** Below an entry of the top there is an id with that digit. */
  lemma TopEntry<T>(at: Tree<T>, mem: Memory<T>, ids: map<nat, T>, layers: nat, m: nat)
    requires Sound(at, mem, ids, layers) && Occupied(mem) && layers > 1 && Key(layers - 1, 0) in mem && m < SIZE
    requires |mem[Key(layers - 1, 0)].ary| == SIZE && !mem[Key(layers - 1, 0)].ary[m].Empty?
    ensures AllBelow(ids, layers - 1) ==> m == 0
  {
    hide AllCounts, AllBitsSet, Different, AllSlots, Occupied;
    TopIn(at, layers);
    EntryAt(at, mem, ids, Key(layers - 1, 0), m);
    assert Joined(0, m) == m;
    var c := Key(layers - 2, m);
    EntryAt(at, mem, ids, c, 0);
    var id := SomeIdBelow(at, mem, ids, c);
  }

  lemma DroppedEntry<T>(at: Tree<T>, mem: Memory<T>, ids: map<nat, T>, layers: nat)
    requires layers > 1 && Key(layers - 1, 0) in at && AllSlots(at, mem, ids)
    requires Key(layers - 1, 0) in mem && OnlyFirst(mem[Key(layers - 1, 0)].ary)
    ensures Key(layers - 2, 0) in at && mem[Key(layers - 1, 0)].ary[0] == Below(at[Key(layers - 2, 0)])
  {
    EntryAt(at, mem, ids, Key(layers - 1, 0), 0);
    assert Joined(0, 0) == 0;
  }

  lemma DroppedSlots<T>(at: Tree<T>, mem: Memory<T>, ids: map<nat, T>, layers: nat)
    requires Keys(at, layers) && AllSlots(at, mem, ids) && layers > 1
    ensures AllSlots(at - {Key(layers - 1, 0)}, mem - {Key(layers - 1, 0)}, ids)
  {
    var top := Key(layers - 1, 0);
    var at', mem' := at - {top}, mem - {top};
    forall j, i: nat | j in at' && i < SIZE
      ensures j in mem' && |mem'[j].ary| == SIZE && mem'[j].ary[i] == Entry(at', ids, j.level, Joined(j.prefix, i))
    {
      EntryAt(at, mem, ids, j, i);
    }
  }

  lemma DroppedIds<T>(at: Tree<T>, ids: map<nat, T>, layers: nat)
    requires IdsIn(at, ids) && layers > 1
    ensures IdsIn(at - {Key(layers - 1, 0)}, ids)
  {
  }

  /** A top whose only entry is its first is not needed. */
  lemma Dropped<T>(at: Tree<T>, mem: Memory<T>, ids: map<nat, T>, layers: nat)
    requires Sound(at, mem, ids, layers) && layers > 1
    requires |mem[Key(layers - 1, 0)].ary| == SIZE
    requires mem[Key(layers - 1, 0)].count == 1 && !mem[Key(layers - 1, 0)].ary[0].Empty?
    ensures Sound(at - {Key(layers - 1, 0)}, mem - {Key(layers - 1, 0)}, ids, layers - 1)
    ensures Key(layers - 2, 0) in at && mem[Key(layers - 1, 0)].ary[0] == Below(at[Key(layers - 2, 0)])
  {
    var top := Key(layers - 1, 0);
    OnlyChild(mem[top].ary, 0);
    FewerDifferent(at, top);
    TopIn(at, layers);
    hide Keys, Different, IdsIn, AllSlots, Bits, FullAt;
    DroppedKeys(at, mem, ids, layers);
    DroppedSlots(at, mem, ids, layers);
    DroppedIds(at, ids, layers);
  }
}
