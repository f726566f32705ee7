/** The layers of an id tree, and what their bitmaps, slots and counts have to say. */
module IdtreeLayers {
  const SIZE: nat := 32
  const MAX_LEVEL: nat := 7
  const MAX_ID_BIT: nat := 0x8000_0000

  datatype Slot<T> = Empty | Below(layer: Layer<T>) | User(pointer: T)

  class Layer<T> {
    /** The bits that are set. */
    var bitmap: set<nat>
    var ary: seq<Slot<T>>
    var count: int

    constructor ()
      ensures bitmap == {} && ary == NoSlots() && count == 0
    {
      bitmap := {};
      ary := NoSlots();
      count := 0;
    }
  }

  function NoSlots<T>(): (r: seq<Slot<T>>)
    ensures |r| == SIZE && forall m :: 0 <= m < SIZE ==> r[m] == Empty
  {
    seq(SIZE, _ => Empty)
  }

  function AllBits(): (r: set<nat>)
    ensures forall m :: m in r <==> 0 <= m < SIZE
  {
    UpTo(SIZE)
  }

  function UpTo(n: nat): (r: set<nat>)
    ensures forall m :: m in r <==> 0 <= m < n
    decreases n
  {
    if n == 0 then {} else UpTo(n - 1) + {n - 1}
  }

  // ---------- The digits of an id ----------

  function Joined(x: nat, digit: nat): (r: nat)
    requires digit < SIZE
    ensures r / SIZE == x && r % SIZE == digit
  {
    SIZE * x + digit
  }

  /** The id without its last n digits. */
  function Prefix(id: nat, n: nat): nat
    decreases n
  {
    if n == 0 then id else Prefix(id, n - 1) / SIZE
  }

  function Power(n: nat): (r: nat)
    ensures r > 0
    decreases n
  {
    if n == 0 then 1 else SIZE * Power(n - 1)
  }

  lemma {:induction false} PrefixFirst(id: nat, n: nat)
    requires n > 0
    ensures Prefix(id, n) == Prefix(id / SIZE, n - 1)
    decreases n
  {
    if n > 1 {
      PrefixFirst(id, n - 1);
    }
  }

  lemma {:induction false} PrefixTimes(x: nat, n: nat)
    ensures x * Power(n) >= 0 && Prefix(x * Power(n), n) == x
    decreases n
  {
    if n > 0 {
      var y := x * Power(n - 1);
      assert x * Power(n) == SIZE * y;
      PrefixFirst(SIZE * y, n);
      PrefixTimes(x, n - 1);
    }
  }

  lemma {:induction false} PrefixAgree(a: nat, b: nat, n: nat, k: nat)
    requires n <= k && Prefix(a, n) == Prefix(b, n)
    ensures Prefix(a, k) == Prefix(b, k)
    decreases k
  {
    if n < k {
      PrefixAgree(a, b, n, k - 1);
    }
  }

  lemma IdRange(id: nat)
    ensures id < MAX_ID_BIT <==> Prefix(id, 6) < 2
  {
    assert Prefix(id, 2) == Prefix(id, 1) / 32 == id / 1024;
    assert Prefix(id, 4) == Prefix(id, 3) / 32 == Prefix(id, 2) / 1024;
    assert Prefix(id, 6) == Prefix(id, 5) / 32 == Prefix(id, 4) / 1024;
  }

  /** The id that only has the last n digits. */
  function Wrap(id: nat, n: nat): nat
    decreases n
  {
    if n == 0 then 0 else id % SIZE + SIZE * Wrap(id / SIZE, n - 1)
  }

  lemma {:induction false} PrefixWrap(id: nat, n: nat, k: nat)
    requires k <= n
    ensures Prefix(Wrap(id, n), k) == Wrap(Prefix(id, k), n - k)
    decreases k
  {
    if k > 0 {
      PrefixWrap(id, n, k - 1);
    }
  }

  lemma {:induction false} WrapSmall(id: nat, n: nat)
    requires Prefix(id, n) == 0
    ensures Wrap(id, n) == id
    decreases n
  {
    if n > 0 {
      PrefixFirst(id, n);
      WrapSmall(id / SIZE, n - 1);
    }
  }

  /** The walk by digits of an id is the walk by digits of its wrapped form. */
  lemma WrapDigits(id: nat, n: nat, k: nat)
    requires k < n
    ensures Prefix(Wrap(id, n), k) % SIZE == Prefix(id, k) % SIZE
    ensures Prefix(Wrap(id, n), n) == 0
  {
    PrefixWrap(id, n, k);
    PrefixWrap(id, n, n);
  }

  // ---------- Full subtrees ----------

  /** All ids that start with x and have n more digits are in use. */
  ghost predicate FullAt<T>(ids: map<nat, T>, n: nat, x: nat)
    decreases n
  {
    if n == 0 then x in ids
    else forall m: nat :: m < SIZE ==> FullAt(ids, n - 1, Joined(x, m))
  }

  lemma {:induction false} FullOther<T>(was: map<nat, T>, now: map<nat, T>, id: nat, n: nat, x: nat)
    requires forall j :: j != id ==> (j in was <==> j in now)
    requires x != Prefix(id, n)
    ensures FullAt(was, n, x) == FullAt(now, n, x)
    decreases n
  {
    if n > 0 {
      forall m: nat | m < SIZE
        ensures FullAt(was, n - 1, Joined(x, m)) == FullAt(now, n - 1, Joined(x, m))
      {
        FullOther(was, now, id, n - 1, Joined(x, m));
      }
    }
  }

  lemma {:induction false} NotFull<T>(ids: map<nat, T>, id: nat, n: nat)
    requires id !in ids
    ensures !FullAt(ids, n, Prefix(id, n))
    decreases n
  {
    if n > 0 {
      NotFull(ids, id, n - 1);
      NotFullAbove(ids, id, n - 1);
    }
  }

  lemma NotFullAbove<T>(ids: map<nat, T>, id: nat, n: nat)
    requires !FullAt(ids, n, Prefix(id, n))
    ensures !FullAt(ids, n + 1, Prefix(id, n + 1))
  {
    var x := Prefix(id, n);
    assert x == Joined(x / SIZE, x % SIZE);
  }

  lemma {:induction false} NotFullUp<T>(ids: map<nat, T>, id: nat, n: nat, k: nat)
    requires n <= k && !FullAt(ids, n, Prefix(id, n))
    ensures !FullAt(ids, k, Prefix(id, k))
    decreases k
  {
    if n < k {
      NotFullUp(ids, id, n, k - 1);
      NotFullAbove(ids, id, k - 1);
    }
  }

  lemma {:induction false} FullHasOne<T>(ids: map<nat, T>, n: nat, x: nat) returns (id: nat)
    requires FullAt(ids, n, x)
    ensures id in ids && Prefix(id, n) == x
    decreases n
  {
    if n == 0 {
      id := x;
    } else {
      assert FullAt(ids, n - 1, Joined(x, 0));
      id := FullHasOne(ids, n - 1, Joined(x, 0));
    }
  }

  // ---------- One layer ----------

  /** The layer of a level whose ids start with a prefix. */
  datatype Key = Key(level: nat, prefix: nat)

  datatype Record<T> = Record(bitmap: set<nat>, ary: seq<Slot<T>>, count: int)

  type Tree<T> = map<Key, Layer<T>>

  type Memory<T> = map<Key, Record<T>>

  function Used<T>(ary: seq<Slot<T>>): nat
    decreases |ary|
  {
    if ary == [] then 0 else (if ary[0].Empty? then 0 else 1) + Used(ary[1..])
  }

  lemma {:induction false} UsedChange<T>(ary: seq<Slot<T>>, m: nat, s: Slot<T>)
    requires m < |ary|
    ensures Used(ary[m := s]) ==
            Used(ary) - (if ary[m].Empty? then 0 else 1) + if s.Empty? then 0 else 1
    decreases |ary|
  {
    if m == 0 {
      assert ary[m := s][1..] == ary[1..];
    } else {
      assert ary[m := s][1..] == ary[1..][m - 1 := s];
      UsedChange(ary[1..], m - 1, s);
    }
  }

  lemma {:induction false} UsedNone<T>(ary: seq<Slot<T>>)
    ensures Used(ary) == 0 <==> forall m :: 0 <= m < |ary| ==> ary[m].Empty?
    decreases |ary|
  {
    if ary != [] {
      var rest := ary[1..];
      UsedNone(rest);
      assert forall m :: 0 < m < |ary| ==> ary[m] == rest[m - 1];
      if forall m :: 0 <= m < |ary| ==> ary[m].Empty? {
        assert forall m :: 0 <= m < |rest| ==> rest[m] == ary[m + 1];
      }
    }
  }

  /** What belongs in the slot for prefix x of a layer of this level. */
  ghost function Entry<T>(at: Tree<T>, ids: map<nat, T>, level: nat, x: nat): Slot<T> {
    if level == 0 then
      if x in ids then User(ids[x]) else Empty
    else
      if Key(level - 1, x) in at then Below(at[Key(level - 1, x)]) else Empty
  }

  ghost predicate Slots<T>(at: Tree<T>, ids: map<nat, T>, k: Key, ary: seq<Slot<T>>) {
    && |ary| == SIZE
    && forall m :: 0 <= m < SIZE ==> ary[m] == Entry(at, ids, k.level, Joined(k.prefix, m))
  }

  /** A bit is set exactly when the subtree below it is full. */
  ghost predicate Bits<T>(ids: map<nat, T>, k: Key, bitmap: set<nat>) {
    forall m: nat :: m in bitmap <==> m < SIZE && FullAt(ids, k.level, Joined(k.prefix, m))
  }

  function Child(k: Key, m: nat): Key
    requires k.level > 0 && m < SIZE
  {
    Key(k.level - 1, Joined(k.prefix, m))
  }

  function Parent(k: Key): Key {
    Key(k.level + 1, k.prefix / SIZE)
  }

  function PathKey(id: nat, level: nat): Key {
    Key(level, Prefix(id, level + 1))
  }

  ghost predicate OnPath(id: nat, k: Key) {
    k.prefix == Prefix(id, k.level + 1)
  }

  lemma PathFacts(id: nat, level: nat)
    ensures OnPath(id, PathKey(id, level))
    ensures Joined(PathKey(id, level).prefix, Prefix(id, level) % SIZE) == Prefix(id, level)
    ensures level > 0 ==> Child(PathKey(id, level), Prefix(id, level) % SIZE) == PathKey(id, level - 1)
  {
  }

  lemma BitsFull<T>(ids: map<nat, T>, k: Key, bitmap: set<nat>)
    requires Bits(ids, k, bitmap)
    ensures bitmap == AllBits() <==> FullAt(ids, k.level + 1, k.prefix)
  {
    if FullAt(ids, k.level + 1, k.prefix) {
      assert forall m: nat :: m < SIZE ==> m in bitmap;
      assert bitmap == AllBits();
    }
    if bitmap == AllBits() {
      assert forall m: nat :: m < SIZE ==> m in bitmap && FullAt(ids, k.level, Joined(k.prefix, m));
    }
  }

  /** Off the path of an id its coming and going does not matter to a bitmap. */
  lemma BitsOther<T>(was: map<nat, T>, now: map<nat, T>, id: nat, k: Key, bitmap: set<nat>)
    requires forall j :: j != id ==> (j in was <==> j in now)
    requires Bits(was, k, bitmap) && !OnPath(id, k)
    ensures Bits(now, k, bitmap)
  {
    forall m: nat | m < SIZE
      ensures FullAt(was, k.level, Joined(k.prefix, m)) == FullAt(now, k.level, Joined(k.prefix, m))
    {
      FullOther(was, now, id, k.level, Joined(k.prefix, m));
    }
  }

  /** On its path only the bit of its own digit can change. */
  lemma BitsOnPath<T>(was: map<nat, T>, now: map<nat, T>, id: nat, level: nat, bitmap: set<nat>, bitmap': set<nat>)
    requires forall j :: j != id ==> (j in was <==> j in now)
    requires Bits(was, PathKey(id, level), bitmap)
    requires bitmap' == if FullAt(now, level, Prefix(id, level)) then bitmap + {Prefix(id, level) % SIZE}
                        else bitmap - {Prefix(id, level) % SIZE}
    ensures Bits(now, PathKey(id, level), bitmap')
  {
    var k, d := PathKey(id, level), Prefix(id, level) % SIZE;
    PathFacts(id, level);
    forall m: nat
      ensures m in bitmap' <==> m < SIZE && FullAt(now, level, Joined(k.prefix, m))
    {
      if m != d && m < SIZE {
        FullOther(was, now, id, level, Joined(k.prefix, m));
      }
    }
  }

  // ---------- The whole tree ----------

  ghost predicate Keys<T>(at: Tree<T>, layers: nat) {
    && (forall k :: k in at ==> k.level < layers)
    && (forall k :: k in at && k.level + 1 == layers ==> k.prefix == 0)
    && (forall k {:trigger Parent(k)} :: k in at && k.level + 1 < layers ==> Parent(k) in at)
    && (layers > 0 ==> Key(layers - 1, 0) in at)
  }

  ghost predicate Different<T>(at: Tree<T>) {
    forall j, k :: j in at && k in at && at[j] == at[k] ==> j == k
  }

  ghost predicate IdsIn<T>(at: Tree<T>, ids: map<nat, T>) {
    forall id :: id in ids ==> Key(0, id / SIZE) in at && id < MAX_ID_BIT
  }

  ghost predicate AllSlots<T>(at: Tree<T>, mem: Memory<T>, ids: map<nat, T>) {
    forall k :: k in at ==> k in mem && Slots(at, ids, k, mem[k].ary)
  }

  ghost predicate AllCounts<T>(mem: Memory<T>) {
    forall k :: k in mem ==> mem[k].count == Used(mem[k].ary)
  }

  ghost predicate AllBitsSet<T>(mem: Memory<T>, ids: map<nat, T>) {
    forall k :: k in mem ==> Bits(ids, k, mem[k].bitmap)
  }

  ghost predicate Sound<T>(at: Tree<T>, mem: Memory<T>, ids: map<nat, T>, layers: nat) {
    && at.Keys == mem.Keys
    && Keys(at, layers)
    && Different(at)
    && IdsIn(at, ids)
    && AllSlots(at, mem, ids)
    && AllCounts(mem)
    && AllBitsSet(mem, ids)
  }

  /** No layer is empty, but perhaps one. */
  ghost predicate OccupiedBut<T>(mem: Memory<T>, k: Key) {
    forall j :: j in mem && j != k ==> mem[j].count > 0
  }

  ghost predicate Occupied<T>(mem: Memory<T>) {
    forall j :: j in mem ==> mem[j].count > 0
  }

  /** The layers above an id in use are all there. */
  lemma {:induction false} IdPath<T>(at: Tree<T>, ids: map<nat, T>, layers: nat, id: nat, level: nat)
    requires Keys(at, layers) && IdsIn(at, ids) && id in ids && level < layers
    ensures PathKey(id, level) in at
    decreases level
  {
    if level > 0 {
      IdPath(at, ids, layers, id, level - 1);
      var k := PathKey(id, level - 1);
      assert k in at && k.level + 1 < layers;
      assert Parent(k) == PathKey(id, level);
    } else {
      assert Prefix(id, 1) == Prefix(id, 0) / SIZE;
    }
  }

  lemma IdBelow<T>(at: Tree<T>, ids: map<nat, T>, layers: nat, id: nat)
    requires Keys(at, layers) && IdsIn(at, ids) && id in ids
    ensures layers > 0 && Prefix(id, layers) == 0
  {
    assert Key(0, id / SIZE) in at;
    IdPath(at, ids, layers, id, layers - 1);
  }

  /** A subtree that has no layer is not full. */
  lemma AbsentNotFull<T>(at: Tree<T>, ids: map<nat, T>, layers: nat, k: Key, n: nat, x: nat)
    requires Keys(at, layers) && IdsIn(at, ids) && k !in at && k.level < layers
    requires n <= k.level + 1 && Prefix(x, k.level + 1 - n) == k.prefix
    ensures !FullAt(ids, n, x)
  {
    if FullAt(ids, n, x) {
      hide Keys, IdsIn, FullAt, Prefix;
      var id := FullHasOne(ids, n, x);
      IdPath(at, ids, layers, id, k.level);
      PrefixSum(id, n, k.level + 1 - n);
    }
  }

  lemma {:induction false} PrefixSum(id: nat, m: nat, n: nat)
    ensures Prefix(Prefix(id, m), n) == Prefix(id, m + n)
    decreases n
  {
    if n > 0 {
      PrefixSum(id, m, n - 1);
    }
  }

  lemma NoneNotFull<T>(ids: map<nat, T>, n: nat, x: nat)
    requires ids == map[]
    ensures !FullAt(ids, n, x)
  {
    if FullAt(ids, n, x) {
      var id := FullHasOne(ids, n, x);
    }
  }
}
