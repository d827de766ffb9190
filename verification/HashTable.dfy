/** clear_stack/hash.c: string keys, their order and their hash. */
module HashKeys {
  import opened Bytes

  /** A character of a C string; the terminator is not part of the string. */
  newtype char8 = x: int | 1 <= x < 256 witness 1

  type Key = seq<char8>

  /** `strcmp`: compares as unsigned characters. */
  function Strcmp(a: Key, b: Key): (r: int) {
    if a == [] then (if b == [] then 0 else -1)
    else if b == [] then 1
    else if a[0] != b[0] then (if a[0] < b[0] then -1 else 1)
    else Strcmp(a[1..], b[1..])
  }

  lemma {:induction false} StrcmpZero(a: Key, b: Key)
    ensures Strcmp(a, b) == 0 <==> a == b
  {
    if a != [] && b != [] && a[0] == b[0] {
      StrcmpZero(a[1..], b[1..]);
      assert a == [a[0]] + a[1..] && b == [b[0]] + b[1..];
    }
  }

  lemma {:induction false} StrcmpFlip(a: Key, b: Key)
    ensures Strcmp(a, b) == -Strcmp(b, a)
  {
    if a != [] && b != [] && a[0] == b[0] {
      StrcmpFlip(a[1..], b[1..]);
    }
  }

  lemma {:induction false} StrcmpTrans(a: Key, b: Key, c: Key)
    requires Strcmp(a, b) < 0 && Strcmp(b, c) < 0
    ensures Strcmp(a, c) < 0
  {
    if a != [] && a[0] == b[0] && b[0] == c[0] {
      StrcmpTrans(a[1..], b[1..], c[1..]);
    }
  }

  // ---------------------------------------------------------------------- hash

  const ULONG_MAX: int := TWO64 - 1

  /** `strcmp` is the dictionary order: below zero if and only if the first key is a
      proper prefix of the second or has the smaller character at the first difference. */
  lemma {:induction false} StrcmpOrder(a: Key, b: Key)
    ensures Strcmp(a, b) < 0 <==> exists k :: Precedes(a, b, k)
  {
    if a == [] || b == [] || a[0] != b[0] {
      assert Strcmp(a, b) < 0 <==> Precedes(a, b, 0);
      assert forall k: nat :: Precedes(a, b, k) && k > 0 ==> a[..k][0] == a[0] && b[..k][0] == b[0];
    } else {
      StrcmpOrder(a[1..], b[1..]);
      forall k: nat | k > 0 ensures Precedes(a, b, k) <==> Precedes(a[1..], b[1..], k - 1) {
        PrecedesStep(a, b, k);
      }
      if k: nat :| Precedes(a[1..], b[1..], k) {
        assert Precedes(a, b, k + 1);
      }
    }
  }

  ghost predicate Precedes(a: Key, b: Key, k: nat) {
    k <= |a| && k < |b| && a[..k] == b[..k] && (k == |a| || a[k] < b[k])
  }

  lemma PrecedesStep(a: Key, b: Key, k: nat)
    requires a != [] && b != [] && a[0] == b[0] && 0 < k
    ensures Precedes(a, b, k) <==> Precedes(a[1..], b[1..], k - 1)
  {
    if k <= |a| && k < |b| {
      var x, y := a[1..][..k - 1], b[1..][..k - 1];
      assert a[..k] == [a[0]] + x && b[..k] == [b[0]] + y;
      assert a[..k][1..] == x && b[..k][1..] == y;
    }
  }

  /** `char` is signed. */
  function Signed(c: char8): (v: int)
    ensures -128 <= v < 128 && (v == c as int || v == c as int - 256)
  {
    if c < 128 then c as int else c as int - 256
  }

  function Mix(h: int, c: char8): (r: int)
    ensures 0 <= r < TWO64
  {
    (h * 256 + Signed(c)) % TWO64
  }

  /** The loop of `htHash` from character `i` on: it also stops when the value is
      ULONG_MAX. */
  function HashFrom(h: int, key: Key, i: nat): (r: int)
    requires 0 <= h < TWO64
    ensures 0 <= r < TWO64
    decreases |key| - i
  {
    if h < ULONG_MAX && i < |key| then HashFrom(Mix(h, key[i]), key, i + 1) else h
  }

  function Bin(seed: int, key: Key, size: nat): (b: nat)
    requires 0 <= seed < TWO64 && 0 < size
    ensures b < size
  {
    HashFrom(seed, key, 0) % size
  }

  /** `htHash`; `seed` is the value that the uninitialised accumulator happens to hold. */
  method HtHash(seed: int, key: Key, size: nat) returns (bin: nat)
    requires 0 <= seed < TWO64 && 0 < size
    ensures bin == Bin(seed, key, size)
    ensures seed == ULONG_MAX ==> bin == ULONG_MAX % size
    ensures seed != ULONG_MAX && Ascii(key) ==>
      bin == (seed * Limit(|key|) + Decode(Backwards(key))) % TWO64 % size
  {
    if seed != ULONG_MAX && Ascii(key) {
      AsciiHash(seed, key);
    }
    var hashval, i := seed, 0;
    while hashval < ULONG_MAX && i < |key|
      invariant 0 <= hashval < TWO64 && 0 <= i <= |key|
      invariant HashFrom(seed, key, 0) == HashFrom(hashval, key, i)
      decreases |key| - i
    {
      hashval := (hashval * 256 + Signed(key[i])) % TWO64;
      i := i + 1;
    }
    bin := hashval % size;
  }

  /** The loop without its early exit. */
  function Fold(h: int, s: Key): (r: int)
    decreases s
  {
    if s == [] then h else Fold(Mix(h, s[0]), s[1..])
  }

  /** The same sum without the modulus. */
  function Big(h: int, s: Key): (r: int)
    decreases s
  {
    if s == [] then h else Big(h * 256 + Signed(s[0]), s[1..])
  }

  ghost predicate Ascii(key: Key) {
    forall i :: 0 <= i < |key| ==> key[i] < 128
  }

  lemma LowCharacter(h: int, c: char8)
    requires c < 128
    ensures Mix(h, c) < ULONG_MAX
  {
    var x := h * 256 + c as int;
    var q := x / TWO64;
    assert x % TWO64 == c as int + 256 * (h - q * 0x100_0000_0000_0000);
    LowDigit(c as int, h - q * 0x100_0000_0000_0000);
  }

  lemma LowDigit(c: int, k: int)
    requires 0 <= c < 256
    ensures (c + 256 * k) % 256 == c
  {
  }

  /** ASCII characters never produce ULONG_MAX, so the whole key is consumed. */
  lemma {:induction false} AsciiConsumesAll(h: int, key: Key, i: nat)
    requires 0 <= h < ULONG_MAX && Ascii(key) && i <= |key|
    ensures HashFrom(h, key, i) == Fold(h, key[i..])
    decreases |key| - i
  {
    if i < |key| {
      LowCharacter(h, key[i]);
      AsciiConsumesAll(Mix(h, key[i]), key, i + 1);
      assert key[i..][1..] == key[i + 1..];
    }
  }

  lemma MixCongruent(h: int, c: int)
    ensures (h % TWO64 * 256 + c) % TWO64 == (h * 256 + c) % TWO64
  {
    var q := h / TWO64;
    assert h == q * TWO64 + h % TWO64;
    assert h * 256 + c == (q * 256) * TWO64 + (h % TWO64 * 256 + c);
    ShiftedOut(q * 256, h % TWO64 * 256 + c);
  }

  lemma {:induction false} FoldIsBig(h: int, s: Key)
    ensures Fold(h % TWO64, s) == Big(h, s) % TWO64
    decreases s
  {
    if s != [] {
      var x := h * 256 + Signed(s[0]);
      MixCongruent(h, Signed(s[0]));
      FoldIsBig(x, s[1..]);
    }
  }

  lemma {:induction false} BigSplits(h: int, s: Key)
    ensures Big(h, s) == h * Limit(|s|) + Big(0, s)
    decreases s
  {
    if s != [] {
      var c, t := Signed(s[0]), s[1..];
      BigSplits(h * 256 + c, t);
      BigSplits(c, t);
      assert (h * 256 + c) * Limit(|t|) == h * (256 * Limit(|t|)) + c * Limit(|t|);
    }
  }

  /** The characters of an ASCII key as base-256 digits, lowest first. */
  ghost function Backwards(key: Key): (b: seq<byte>)
    ensures |b| == |key|
  {
    seq(|key|, i requires 0 <= i < |key| => key[|key| - 1 - i] as int as byte)
  }

  lemma {:induction false} BigIsDecode(s: Key)
    requires Ascii(s)
    ensures Big(0, s) == Decode(Backwards(s))
    decreases s
  {
    if s != [] {
      BigIsDecode(s[1..]);
      BackwardsSplit(s);
      BigStep(s);
      hide Big, Decode, Backwards, Limit;
      Swapped(s[0] as int, Limit(|s| - 1));
    }
  }

  lemma BigStep(s: Key)
    requires s != []
    ensures Big(0, s) == Signed(s[0]) * Limit(|s| - 1) + Big(0, s[1..])
  {
    hide Limit, Signed;
    BigSplits(Signed(s[0]), s[1..]);
  }

  lemma Swapped(x: int, y: int)
    ensures x * y == y * x
  {
  }

  lemma BackwardsSplit(s: Key)
    requires s != []
    ensures Decode(Backwards(s)) == Decode(Backwards(s[1..])) + Limit(|s| - 1) * s[0] as int
  {
    hide Decode, Backwards, Limit;
    DecodeSplit(Backwards(s), |s| - 1);
    BackwardsParts(s);
    OneDigit(s[0] as int as byte);
  }

  lemma BackwardsParts(s: Key)
    requires s != []
    ensures var n, b := |s| - 1, Backwards(s); b[..n] == Backwards(s[1..]) && b[n..] == [s[0] as int as byte]
  {
  }

  lemma OneDigit(x: byte)
    ensures Decode([x]) == x as int
  {
    assert [x][1..] == [];
  }

  /** The hash of an ASCII key in closed form: the seed and the characters are the digits
      of one base-256 number, modulo 2^64. */
  lemma AsciiHash(seed: int, key: Key)
    requires 0 <= seed < ULONG_MAX && Ascii(key)
    ensures HashFrom(seed, key, 0) == (seed * Limit(|key|) + Decode(Backwards(key))) % TWO64
  {
    hide HashFrom, Fold, Big, Decode, Backwards, Limit;
    AsciiConsumesAll(seed, key, 0);
    assert key[0..] == key;
    FoldIsBig(seed, key);
    BigSplits(seed, key);
    BigIsDecode(key);
  }

  /** For any key: the loop consumes characters up to the first prefix whose value is
      ULONG_MAX, or all of them. */
  ghost predicate StopsAt(h: int, key: Key, i: nat, n: nat) {
    && i <= n <= |key| && (n == |key| || Fold(h, key[i..n]) == ULONG_MAX)
    && forall m :: i <= m < n ==> Fold(h, key[i..m]) != ULONG_MAX
  }

  lemma {:induction false} HashStops(h: int, key: Key, i: nat) returns (n: nat)
    requires 0 <= h < TWO64 && i <= |key|
    ensures StopsAt(h, key, i, n) && HashFrom(h, key, i) == Fold(h, key[i..n])
    decreases |key| - i
  {
    if h < ULONG_MAX && i < |key| {
      n := HashStops(Mix(h, key[i]), key, i + 1);
      forall m | i < m <= n ensures Fold(h, key[i..m]) == Fold(Mix(h, key[i]), key[i + 1..m]) {
        assert key[i..m][1..] == key[i + 1..m];
      }
    } else {
      n := i;
    }
  }

  lemma {:induction false} FoldConcat(h: int, s: Key, t: Key)
    ensures Fold(h, s + t) == Fold(Fold(h, s), t)
    decreases s
  {
    if s == [] {
      assert s + t == t;
    } else {
      FoldConcat(Mix(h, s[0]), s[1..], t);
      assert (s + t)[1..] == s[1..] + t;
    }
  }

  lemma {:induction false} FoldRange(h: int, s: Key)
    requires 0 <= h < TWO64
    ensures 0 <= Fold(h, s) < TWO64
    decreases s
  {
    if s != [] {
      FoldRange(Mix(h, s[0]), s[1..]);
    }
  }

  /** Eight characters shift everything before them out of the 64-bit value. */
  lemma EightForget(h: int, s: Key)
    requires 0 <= h < TWO64 && |s| == 8
    ensures Fold(h, s) == Big(0, s) % TWO64
  {
    FoldIsBig(h, s);
    BigSplits(h, s);
    LimitEight();
    hide Fold, Big, Limit;
    ShiftedOut(h, Big(0, s));
  }

  lemma ShiftedOut(h: int, y: int)
    ensures (h * TWO64 + y) % TWO64 == y % TWO64
  {
  }

  /** Bucket determinacy: for ASCII keys of at least eight characters the hash depends
      only on the last eight, whatever the accumulator held before. */
  lemma LongKeyHash(seed: int, key: Key)
    requires 0 <= seed < ULONG_MAX && Ascii(key) && 8 <= |key|
    ensures HashFrom(seed, key, 0) == Big(0, key[|key| - 8..]) % TWO64
  {
    var n := |key| - 8;
    AsciiConsumesAll(seed, key, 0);
    assert key[0..] == key && key == key[..n] + key[n..];
    FoldConcat(seed, key[..n], key[n..]);
    FoldRange(seed, key[..n]);
    EightForget(Fold(seed, key[..n]), key[n..]);
  }

  lemma LongKeyBin(seed: int, seed': int, key: Key, key': Key, size: nat)
    requires 0 <= seed < ULONG_MAX && 0 <= seed' < ULONG_MAX && 0 < size
    requires Ascii(key) && Ascii(key') && 8 <= |key| && 8 <= |key'|
    requires key[|key| - 8..] == key'[|key'| - 8..]
    ensures Bin(seed, key, size) == Bin(seed', key', size)
  {
    LongKeyHash(seed, key);
    LongKeyHash(seed', key');
  }
}

/** clear_stack/hash.c: the table with sorted chains. */
module HashTable {
  import opened Bytes
  import opened HashKeys

  type Value = seq<int>

  class Entry {
    const key: Key
    ghost const bin: nat
    var value: Value
    var next: Entry?

    /** `htNewpair` */
    constructor (key: Key, value: Value, ghost bin: nat)
      ensures this.key == key && this.value == value && this.bin == bin && next == null
    {
      this.key, this.value, this.bin, next := key, value, bin, null;
    }
  }

  ghost predicate Sorted(c: seq<Entry>) {
    forall i, j :: 0 <= i < j < |c| ==> Strcmp(c[i].key, c[j].key) < 0
  }

  /** `c` is the linked list that starts at `head`. */
  ghost predicate Linked(head: Entry?, c: seq<Entry>)
    reads c`next
  {
    && head == (if c == [] then null else c[0])
    && forall i {:trigger c[i].next} :: 0 <= i < |c| ==> c[i].next == if i + 1 < |c| then c[i + 1] else null
  }

  /** The chain stores exactly the map `m`. */
  ghost predicate Stores(c: seq<Entry>, m: map<Key, Value>)
    reads c`value
  {
    && (forall i :: 0 <= i < |c| ==> c[i].key in m && m[c[i].key] == c[i].value)
    && (forall k :: k in m ==> exists i :: 0 <= i < |c| && c[i].key == k)
  }

  ghost predicate ChainOk(head: Entry?, c: seq<Entry>, m: map<Key, Value>)
    reads c`next, c`value
  {
    Sorted(c) && Linked(head, c) && Stores(c, m)
  }

  /** Position of `key` in a sorted chain: everything before is smaller, everything from
      `i` on is not. */
  ghost predicate Position(c: seq<Entry>, key: Key, i: nat) {
    && i <= |c|
    && (forall j :: 0 <= j < i ==> Strcmp(key, c[j].key) > 0)
    && (i < |c| ==> Strcmp(key, c[i].key) <= 0)
  }

  lemma PositionRest(c: seq<Entry>, key: Key, i: nat, j: nat)
    requires Sorted(c) && Position(c, key, i) && i <= j < |c|
    ensures i < j || Strcmp(key, c[i].key) < 0 ==> Strcmp(key, c[j].key) < 0
  {
    if i < j {
      if Strcmp(key, c[i].key) < 0 {
        StrcmpTrans(key, c[i].key, c[j].key);
      } else {
        StrcmpZero(key, c[i].key);
      }
    }
  }

  /** The early stop misses nothing. */
  lemma PositionDecides(c: seq<Entry>, m: map<Key, Value>, key: Key, i: nat)
    requires Sorted(c) && Stores(c, m) && Position(c, key, i)
    ensures key in m <==> i < |c| && Strcmp(key, c[i].key) == 0
    ensures i < |c| && Strcmp(key, c[i].key) == 0 ==> c[i].key == key
  {
    if i < |c| {
      StrcmpZero(key, c[i].key);
    }
    if key in m {
      var j :| 0 <= j < |c| && c[j].key == key;
      StrcmpZero(key, key);
      if i <= j {
        PositionRest(c, key, i, j);
      }
    }
  }

  /** The walk of `htSet` and `htGet`. */
  method Walk(head: Entry?, key: Key, ghost c: seq<Entry>, ghost m: map<Key, Value>)
    returns (last: Entry?, next: Entry?, ghost i: nat)
    requires ChainOk(head, c, m)
    ensures i <= |c| && Position(c, key, i)
    ensures key in m <==> next != null && Strcmp(key, next.key) == 0
    ensures next != null && Strcmp(key, next.key) == 0 ==> next.key == key && m[key] == next.value
    ensures last == if i == 0 then null else c[i - 1]
    ensures next == if i == |c| then null else c[i]
  {
    last, next, i := null, head, 0;
    while next != null && Strcmp(key, next.key) > 0
      invariant i <= |c|
      invariant forall j :: 0 <= j < i ==> Strcmp(key, c[j].key) > 0
      invariant last == if i == 0 then null else c[i - 1]
      invariant next == if i == |c| then null else c[i]
      decreases |c| - i
    {
      last := next;
      next := next.next;
      i := i + 1;
    }
    PositionDecides(c, m, key, i);
  }

  lemma InsertSorted(c: seq<Entry>, i: nat, e: Entry)
    requires i <= |c| && Sorted(c) && Position(c, e.key, i) && (i < |c| ==> Strcmp(e.key, c[i].key) != 0)
    ensures Sorted(c[..i] + [e] + c[i..])
  {
    var d := c[..i] + [e] + c[i..];
    forall k, l | 0 <= k < l < |d| ensures Strcmp(d[k].key, d[l].key) < 0 {
      if k < i && l == i {
        StrcmpFlip(e.key, c[k].key);
      } else if k == i {
        PositionRest(c, e.key, i, l - 1);
      }
    }
  }

  /** Replaces the value of a key that is present. */
  method Replace(head: Entry?, next: Entry, value: Value, ghost c: seq<Entry>, ghost m: map<Key, Value>, ghost i: nat)
    requires ChainOk(head, c, m) && i < |c| && c[i] == next
    modifies next`value
    ensures ChainOk(head, c, m[next.key := value])
  {
    hide Strcmp, Linked;
    next.value := value;
    KeysDistinct(c);
  }

  lemma KeysDistinct(c: seq<Entry>)
    requires Sorted(c)
    ensures forall j, k :: 0 <= j < k < |c| ==> c[j].key != c[k].key
  {
    forall j, k | 0 <= j < k < |c| ensures c[j].key != c[k].key {
      StrcmpZero(c[j].key, c[k].key);
    }
  }

  /** The three cases of linking a new pair in: at the start, at the end, in between. */
  method Link(head: Entry?, last: Entry?, next: Entry?, newpair: Entry, ghost c: seq<Entry>, ghost i: nat)
    returns (newHead: Entry?)
    requires Linked(head, c) && i <= |c| && newpair !in c && newpair.next == null && Sorted(c)
    requires last == if i == 0 then null else c[i - 1]
    requires next == if i == |c| then null else c[i]
    modifies newpair`next, (if last == null then {} else {last})`next
    ensures Linked(newHead, c[..i] + [newpair] + c[i..])
  {
    KeysDistinct(c);
    hide Strcmp, Sorted;
    newHead := head;
    if next == head {
      newpair.next := next;
      newHead := newpair;
    } else if next == null {
      last.next := newpair;
    } else {
      newpair.next := next;
      last.next := newpair;
    }
    ghost var d := c[..i] + [newpair] + c[i..];
    forall k | 0 <= k < |d| ensures d[k].next == if k + 1 < |d| then d[k + 1] else null {
      if k + 1 < i {
        assert d[k] == c[k] && d[k + 1] == c[k + 1] && c[k] != c[i - 1];
      } else if i < k {
        assert d[k] == c[k - 1] && (k < |c| ==> d[k + 1] == c[k]);
      }
    }
  }

  method InsertPair(head: Entry?, last: Entry?, next: Entry?, key: Key, value: Value,
                    ghost c: seq<Entry>, ghost b: nat, ghost m: map<Key, Value>, ghost i: nat)
    returns (newpair: Entry, newHead: Entry?)
    requires i <= |c| && ChainOk(head, c, m) && Position(c, key, i) && key !in m
    requires last == if i == 0 then null else c[i - 1]
    requires next == if i == |c| then null else c[i]
    modifies (if last == null then {} else {last})`next
    ensures fresh(newpair) && newpair.bin == b && ChainOk(newHead, c[..i] + [newpair] + c[i..], m[key := value])
  {
    hide Strcmp, Position, Sorted, Stores, Linked;
    PositionDecides(c, m, key, i);
    newpair := new Entry(key, value, b);
    InsertSorted(c, i, newpair);
    StoresInsert(c, m, i, newpair);
    newHead := Link(head, last, next, newpair, c, i);
  }

  lemma StoresInsert(c: seq<Entry>, m: map<Key, Value>, i: nat, e: Entry)
    requires i <= |c| && Stores(c, m) && e.key !in m
    ensures Stores(c[..i] + [e] + c[i..], m[e.key := e.value])
  {
    var d := c[..i] + [e] + c[i..];
    var n := m[e.key := e.value];
    forall k | k in n ensures exists j :: 0 <= j < |d| && d[j].key == k {
      if k == e.key {
        assert d[i].key == k;
      } else {
        var j :| 0 <= j < |c| && c[j].key == k;
        assert d[if j < i then j else j + 1].key == k;
      }
    }
  }

  class Table {
    const size: nat
    var table: array<Entry?>
    ghost var chains: seq<seq<Entry>>
    ghost var bins: seq<map<Key, Value>>
    ghost var nodes: set<Entry>

    ghost predicate Valid()
      reads this, table, nodes
    {
      && 0 < size == table.Length == |chains| == |bins|
      && (forall b, i :: 0 <= b < size && 0 <= i < |chains[b]| ==> chains[b][i] in nodes && chains[b][i].bin == b)
      && (forall b :: 0 <= b < size ==> ChainOk(table[b], chains[b], bins[b]))
    }

    /** `htCreate` */
    constructor (n: nat)
      requires 0 < n
      ensures Valid() && size == n && bins == seq(n, _ => map[]) && fresh(table) && fresh(nodes)
    {
      size := n;
      table := new Entry?[n](_ => null);
      chains, bins, nodes := seq(n, _ => []), seq(n, _ => map[]), {};
    }

    /** `htGet`: the value stored for the key in its bin, or NULL. */
    method HtGet(seed: int, key: Key) returns (found: bool, value: Value)
      requires Valid() && 0 <= seed < TWO64
      ensures var m := bins[Bin(seed, key, size)];
        (found <==> key in m) && (found ==> value == m[key])
    {
      var bin := HtHash(seed, key, size);
      ghost var c, m := chains[bin], bins[bin];
      var last, pair, i := Walk(table[bin], key, c, m);
      if pair == null || Strcmp(key, pair.key) != 0 {
        return false, [];
      }
      return true, pair.value;
    }

    /** `htSet`: the key's bin maps it to the value; every other key and every other bin
        is as before. */
    method HtSet(seed: int, key: Key, value: Value)
      requires Valid() && 0 <= seed < TWO64
      modifies this, table, nodes
      ensures Valid() && fresh(nodes - old(nodes)) && table == old(table)
      ensures bins == SetIn(old(bins), Bin(seed, key, size), key, value)
    {
      hide Strcmp, ChainOk, Position;
      var bin := HtHash(seed, key, size);
      ghost var c, m := chains[bin], bins[bin];
      var last, next, i := Walk(table[bin], key, c, m);
      if next != null && Strcmp(key, next.key) == 0 {
        Replace(table[bin], next, value, c, m, i);
        Commit(bin, c, m[key := value], {});
      } else {
        var newpair, head := InsertPair(table[bin], last, next, key, value, c, bin, m, i);
        table[bin] := head;
        Commit(bin, c[..i] + [newpair] + c[i..], m[key := value], {newpair});
      }
    }

    /** Records the new chain and map of one bin. */
    ghost method Commit(bin: nat, d: seq<Entry>, m: map<Key, Value>, extra: set<Entry>)
      requires 0 < size == table.Length == |chains| == |bins| && bin < size
      requires forall b, i :: 0 <= b < size && 0 <= i < |chains[b]| ==> chains[b][i] in nodes && chains[b][i].bin == b
      requires forall b :: 0 <= b < size && b != bin ==> ChainOk(table[b], chains[b], bins[b])
      requires ChainOk(table[bin], d, m) && forall i :: 0 <= i < |d| ==> d[i] in nodes + extra && d[i].bin == bin
      modifies this`chains, this`bins, this`nodes
      ensures Valid() && bins == old(bins)[bin := m] && nodes == old(nodes) + extra
    {
      hide ChainOk;
      chains, bins, nodes := chains[bin := d], bins[bin := m], nodes + extra;
    }
  }

  function SetIn(bins: seq<map<Key, Value>>, b: nat, key: Key, value: Value): (r: seq<map<Key, Value>>)
    requires b < |bins|
  {
    bins[b := bins[b][key := value]]
  }

  /** `htCreate`: NULL for a size below one. */
  method HtCreate(size: int) returns (t: Table?)
    ensures t == null <==> size < 1
    ensures t != null ==> fresh(t) && t.Valid() && t.size == size && t.bins == Empty(size)
  {
    if size < 1 {
      return null;
    }
    t := new Table(size);
  }

  // ----------------------------------------------------- refinement of a map

  function Empty(size: nat): (bins: seq<map<Key, Value>>) {
    seq(size, _ => map[])
  }

  /** One `htSet` call, with the value its uninitialised accumulator held. */
  datatype Set = Set(seed: int, key: Key, value: Value)

  ghost predicate Seeded(ops: seq<Set>) {
    forall i :: 0 <= i < |ops| ==> 0 <= ops[i].seed < TWO64
  }

  /** The bins after a sequence of `htSet` calls on a new table. */
  ghost function After(ops: seq<Set>, size: nat): (bins: seq<map<Key, Value>>)
    requires 0 < size && Seeded(ops)
    ensures |bins| == size
    decreases |ops|
  {
    if ops == [] then Empty(size)
    else
      var n := |ops| - 1;
      SetIn(After(ops[..n], size), Bin(ops[n].seed, ops[n].key, size), ops[n].key, ops[n].value)
  }

  datatype Answer = Null | Stored(value: Value)

  /** What `htGet` answers. */
  ghost function Get(bins: seq<map<Key, Value>>, seed: int, key: Key): (r: Answer)
    requires 0 < |bins| && 0 <= seed < TWO64
  {
    var m := bins[Bin(seed, key, |bins|)];
    if key in m then Stored(m[key]) else Null
  }

  /** The value of the last call for `key` that went to bin `b`. */
  ghost function LastIn(ops: seq<Set>, key: Key, b: nat, size: nat): (r: Answer)
    requires 0 < size && Seeded(ops)
    decreases |ops|
  {
    if ops == [] then Null
    else
      var n := |ops| - 1;
      if ops[n].key == key && Bin(ops[n].seed, key, size) == b then Stored(ops[n].value)
      else LastIn(ops[..n], key, b, size)
  }

  /** The value of the last call for `key`. */
  ghost function Last(ops: seq<Set>, key: Key): (r: Answer)
    decreases |ops|
  {
    if ops == [] then Null
    else if ops[|ops| - 1].key == key then Stored(ops[|ops| - 1].value)
    else Last(ops[..|ops| - 1], key)
  }

  /** After any sequence of calls, with any seeds, a lookup answers the last value set
      for the key in the bin it looks at. */
  lemma {:induction false} GetIsLastInBin(ops: seq<Set>, size: nat, seed: int, key: Key)
    requires 0 < size && Seeded(ops) && 0 <= seed < TWO64
    ensures Get(After(ops, size), seed, key) == LastIn(ops, key, Bin(seed, key, size), size)
    decreases |ops|
  {
    if ops != [] {
      GetIsLastInBin(ops[..|ops| - 1], size, seed, key);
    }
  }

  /** Which call that is, by index. */
  lemma {:induction false} LastInByIndex(ops: seq<Set>, key: Key, b: nat, size: nat, i: nat)
    requires 0 < size && Seeded(ops) && i < |ops| && ops[i].key == key && Bin(ops[i].seed, key, size) == b
    requires forall j :: i < j < |ops| && ops[j].key == key ==> Bin(ops[j].seed, key, size) != b
    ensures LastIn(ops, key, b, size) == Stored(ops[i].value)
    decreases |ops|
  {
    var n := |ops| - 1;
    if i < n {
      LastInByIndex(ops[..n], key, b, size, i);
    }
  }

  lemma {:induction false} LastByIndex(ops: seq<Set>, key: Key, i: nat)
    requires i < |ops| && ops[i].key == key && forall j :: i < j < |ops| ==> ops[j].key != key
    ensures Last(ops, key) == Stored(ops[i].value)
    decreases |ops|
  {
    var n := |ops| - 1;
    if i < n {
      LastByIndex(ops[..n], key, i);
    }
  }

  lemma {:induction false} NeverSet(ops: seq<Set>, key: Key)
    requires forall j :: 0 <= j < |ops| ==> ops[j].key != key
    ensures Last(ops, key) == Null
    decreases |ops|
  {
    if ops != [] {
      NeverSet(ops[..|ops| - 1], key);
    }
  }

  /** The key was never set, or the last call for it hashed it to the bin that the lookup
      hashes it to. */
  ghost predicate LastHits(ops: seq<Set>, size: nat, seed: int, key: Key)
    requires 0 < size && Seeded(ops) && 0 <= seed < TWO64
    decreases |ops|
  {
    ops == [] ||
    var n := |ops| - 1;
    if ops[n].key == key then Bin(ops[n].seed, key, size) == Bin(seed, key, size)
    else LastHits(ops[..n], size, seed, key)
  }

  /** The table answers like a map whenever the last call for the key hit its bin. */
  lemma {:induction false} RefinesMap(ops: seq<Set>, size: nat, seed: int, key: Key)
    requires 0 < size && Seeded(ops) && 0 <= seed < TWO64 && LastHits(ops, size, seed, key)
    ensures Get(After(ops, size), seed, key) == Last(ops, key)
    decreases |ops|
  {
    if ops != [] {
      var n := |ops| - 1;
      if ops[n].key != key {
        RefinesMap(ops[..n], size, seed, key);
      }
    }
  }

  /** An answer comes from a call for the key. */
  lemma {:induction false} LastInIsSet(ops: seq<Set>, size: nat, key: Key, b: nat) returns (i: nat)
    requires 0 < size && Seeded(ops) && LastIn(ops, key, b, size).Stored?
    ensures i < |ops| && ops[i].key == key && LastIn(ops, key, b, size) == Stored(ops[i].value)
    decreases |ops|
  {
    i := |ops| - 1;
    if !(ops[i].key == key && Bin(ops[i].seed, key, size) == b) {
      i := LastInIsSet(ops[..i], size, key, b);
    }
  }

  /** No two calls for the key set the same value. */
  ghost predicate Fresh(ops: seq<Set>, key: Key) {
    forall i, j :: 0 <= i < j < |ops| && ops[i].key == key && ops[j].key == key ==> ops[i].value != ops[j].value
  }

  /** For values that can be told apart, a lookup answers the last value set, or NULL for
      a key never set, if and only if the last call for the key hit the lookup's bin. */
  lemma {:induction false} RefinesMapIff(ops: seq<Set>, size: nat, seed: int, key: Key)
    requires 0 < size && Seeded(ops) && 0 <= seed < TWO64 && Fresh(ops, key)
    ensures Get(After(ops, size), seed, key) == Last(ops, key) <==> LastHits(ops, size, seed, key)
    decreases |ops|
  {
    if LastHits(ops, size, seed, key) {
      RefinesMap(ops, size, seed, key);
    } else {
      var n, b := |ops| - 1, Bin(seed, key, size);
      GetIsLastInBin(ops, size, seed, key);
      GetIsLastInBin(ops[..n], size, seed, key);
      if ops[n].key != key {
        RefinesMapIff(ops[..n], size, seed, key);
      } else if LastIn(ops[..n], key, b, size).Stored? {
        var i := LastInIsSet(ops[..n], size, key, b);
        assert ops[..n][i] == ops[i];
      }
    }
  }

  /** Keys that always hash to one bin always hit it. */
  lemma {:induction false} SameBinHits(ops: seq<Set>, size: nat, seed: int, key: Key)
    requires 0 < size && Seeded(ops) && 0 <= seed < TWO64
    requires forall i :: 0 <= i < |ops| && ops[i].key == key ==> Bin(ops[i].seed, key, size) == Bin(seed, key, size)
    ensures LastHits(ops, size, seed, key)
    decreases |ops|
  {
    if ops != [] {
      SameBinHits(ops[..|ops| - 1], size, seed, key);
    }
  }

  /** With one fixed starting value every stored key is in its own bin. */
  lemma {:induction false} OwnBin(ops: seq<Set>, size: nat, seed: int, b: nat, key: Key)
    requires 0 < size && 0 <= seed < TWO64 && forall i :: 0 <= i < |ops| ==> ops[i].seed == seed
    requires b < size && key in After(ops, size)[b]
    ensures b == Bin(seed, key, size)
    decreases |ops|
  {
    if ops != [] {
      var n := |ops| - 1;
      if !(ops[n].key == key && Bin(seed, key, size) == b) {
        OwnBin(ops[..n], size, seed, b, key);
      }
    }
  }

  /** With one fixed starting value every key keeps its bin. */
  lemma FixedSeed(ops: seq<Set>, size: nat, seed: int, key: Key)
    requires 0 < size && 0 <= seed < TWO64 && forall i :: 0 <= i < |ops| ==> ops[i].seed == seed
    ensures Get(After(ops, size), seed, key) == Last(ops, key)
  {
    SameBinHits(ops, size, seed, key);
    RefinesMap(ops, size, seed, key);
  }

  /** ASCII keys of at least eight characters keep their bin whatever the accumulator
      held in each call, short of ULONG_MAX. */
  lemma LongKeysAnySeed(ops: seq<Set>, size: nat, seed: int, key: Key)
    requires 0 < size && 0 <= seed < ULONG_MAX && forall i :: 0 <= i < |ops| ==> 0 <= ops[i].seed < ULONG_MAX
    requires Ascii(key) && 8 <= |key|
    ensures Get(After(ops, size), seed, key) == Last(ops, key)
  {
    forall i | 0 <= i < |ops| && ops[i].key == key ensures Bin(ops[i].seed, key, size) == Bin(seed, key, size) {
      LongKeyBin(ops[i].seed, seed, key, key, size);
    }
    SameBinHits(ops, size, seed, key);
    RefinesMap(ops, size, seed, key);
  }

  /** A short key can be lost: set when the accumulator held 0, it is not found when the
      accumulator holds 1. */
  lemma ShortKeyLost(value: Value)
    ensures var key: Key := [97]; Get(After([Set(0, key, value)], 3), 1, key) == Null
  {
    var key: Key := [97];
    var ops := [Set(0, key, value)];
    assert HashFrom(0, key, 0) == HashFrom(Mix(0, 97), key, 1) == 97;
    assert HashFrom(1, key, 0) == HashFrom(Mix(1, 97), key, 1) == 353;
    assert ops[..0] == [];
  }

  /** The code driven through a sequence of calls: a new table ends up with the bins that
      the sequence prescribes. */
  method Replay(size: nat, ops: seq<Set>) returns (t: Table)
    requires 0 < size && Seeded(ops)
    ensures fresh(t) && t.Valid() && t.size == size && t.bins == After(ops, size)
  {
    hide Bin;
    t := new Table(size);
    for i := 0 to |ops|
      invariant t.Valid() && fresh(t) && fresh(t.table) && fresh(t.nodes) && t.size == size
      invariant t.bins == After(ops[..i], size)
    {
      t.HtSet(ops[i].seed, ops[i].key, ops[i].value);
      assert ops[..i + 1][..i] == ops[..i];
    }
    assert ops[..|ops|] == ops;
  }
}
