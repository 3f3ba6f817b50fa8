/** A hash table whose bucket array has a power-of-two length (MyHashMap).
    A key's hash selects bucket `hash & (length - 1)`; each bucket is a
    chain of nodes, modelled as a sequence. The table is allocated by the
    first `put` and doubles when the number of mappings passes the
    threshold. */
module HashMaps {
  import opened Optional

  /** Number of buckets allocated by the first `put`. */
  const DefaultInitialCapacity: nat := 16
  /** Largest number of buckets; the table never grows past it. */
  const MaximumCapacity: nat := 0x4000_0000
  /** Threshold of the first table: 0.75 of 16, truncated. */
  const DefaultThreshold: nat := 12
  /** Java's Integer.MAX_VALUE. */
  const IntMax: nat := 0x7fff_ffff

  // ---------------------------------------------------------------------
  // Bits

  function Pow2(p: nat): (r: nat)
    ensures 1 <= r
  {
    if p == 0 then 1 else 2 * Pow2(p - 1)
  }

  /** The largest table has 2^30 buckets. */
  lemma MaximumCapacityIsPow2()
    ensures Pow2(30) == MaximumCapacity
  {
    assert Pow2(10) == 1024;
    assert Pow2(20) == 1024 * 1024;
  }

  /** Powers of two grow with the exponent. */
  lemma {:induction false} Pow2Grows(p: nat, q: nat)
    requires p <= q
    ensures Pow2(p) <= Pow2(q)
    decreases q
  {
    if p < q {
      Pow2Grows(p, q - 1);
    }
  }

  /** Bitwise "and" of two non-negative numbers, taken bit by bit from the
      lowest. */
  function And(a: nat, b: nat): (r: nat)
    ensures r <= a && r <= b
    decreases a, 1
  {
    if a == 0 || b == 0 then 0 else AndPositive(a, b)
  }

  /** The "and" of two positive numbers: that of their halves, shifted
      up, plus that of their lowest bits. */
  function AndPositive(a: nat, b: nat): (r: nat)
    requires 0 < a && 0 < b
    ensures r <= a && r <= b
    decreases a, 0
  {
    2 * And(a / 2, b / 2) + (if a % 2 == 1 && b % 2 == 1 then 1 else 0)
  }

  /** A product of a positive number is at least that number in size. */
  lemma MulSign(d: int, m: int)
    requires 1 <= d
    ensures m >= 1 ==> d * m >= d
    ensures m <= -1 ==> d * m <= -d
  {
    if m >= 1 {
      assert d * m == d + d * (m - 1);
    }
    if m <= -1 {
      assert d * m == -d + d * (m + 1);
    }
  }

  /** Quotient and remainder are determined by any decomposition
      `a == d * k + r` with `0 <= r < d`. */
  lemma DivModUnique(a: int, d: int, k: int, r: int)
    requires 0 <= r < d && a == d * k + r
    ensures a % d == r && a / d == k
  {
    var m := a / d - k;
    assert d * (a / d) + a % d == a;
    assert d * m == d * (a / d) - d * k;
    MulSign(d, m);
  }

  /** Splitting off the lowest bit of a remainder by an even divisor. */
  lemma ModHalf(a: nat, q: nat)
    requires 1 <= q
    ensures a % (2 * q) == 2 * ((a / 2) % q) + a % 2
  {
    var r := 2 * ((a / 2) % q) + a % 2;
    var k := (a / 2) / q;
    assert a / 2 == q * k + (a / 2) % q;
    assert a == (2 * q) * k + r;
    DivModUnique(a, 2 * q, k, r);
  }

  /** With an odd mask, the lowest bit of a survives and the rest is
      masked by the upper bits of the mask. */
  lemma AndOddMask(a: nat, m: nat)
    requires 0 < a && m % 2 == 1
    ensures And(a, m) == 2 * And(a / 2, m / 2) + a % 2
  {
    assert And(a, m) == AndPositive(a, m);
  }

  /** One bit more of mask: if masking with `q - 1` keeps the remainder
      modulo q of a / 2, masking with `2q - 1` keeps that of a modulo 2q. */
  lemma AndLowMaskStep(a: nat, q: nat)
    requires 0 < a && 1 <= q && And(a / 2, q - 1) == (a / 2) % q
    ensures And(a, 2 * q - 1) == a % (2 * q)
  {
    var m := 2 * q - 1;
    assert m / 2 == q - 1 && m % 2 == 1;
    AndOddMask(a, m);
    ModHalf(a, q);
  }

  /** Masking with `2^p - 1` keeps the remainder modulo `2^p`: this is why
      a power-of-two table can select a bucket with `&`. */
  lemma {:induction false} AndLowMask(a: nat, p: nat)
    ensures And(a, Pow2(p) - 1) == a % Pow2(p)
  {
    if p != 0 && a != 0 {
      AndLowMask(a / 2, p - 1);
      AndLowMaskStep(a, Pow2(p - 1));
    }
  }

  /** Going from modulus n to 2n, a remainder either stays or gains n. */
  lemma ModDoubled(a: nat, n: nat)
    requires 1 <= n
    ensures (a % (2 * n)) % n == a % n
    ensures a % (2 * n) == a % n || a % (2 * n) == a % n + n
  {
    var r := a % (2 * n);
    var k := a / (2 * n);
    assert a == n * (2 * k) + r;
    if r < n {
      DivModUnique(a, n, 2 * k, r);
      DivModUnique(r, n, 0, r);
    } else {
      assert a == n * (2 * k + 1) + (r - n);
      DivModUnique(a, n, 2 * k + 1, r - n);
      DivModUnique(r, n, 1, r - n);
    }
  }

  // ---------------------------------------------------------------------
  // Hashing

  /** `h ^ (h >>> 16)`: the upper half of the hash code is folded into the
      lower half, which is all that a small table looks at; the upper half
      itself is kept. */
  function Spread(h: bv32): (r: bv32)
    ensures r >> 16 == h >> 16
  {
    h ^ (h >> 16)
  }

  /** The spread loses nothing: folding the upper half into the lower half
      once more gives the hash code back, so distinct hash codes spread to
      distinct hashes. */
  lemma SpreadUndone(h: bv32)
    ensures (h ^ (h >> 16)) >> 16 == h >> 16
    ensures var r := h ^ (h >> 16); r ^ (r >> 16) == h
  {
  }

  /** The hash of a key: 0 for the null key, otherwise its spread hash
      code, which agrees with the hash code in its upper half. */
  function Hash<K>(hashCode: K -> bv32, key: Option<K>): (r: bv32)
    ensures key.None? ==> r == 0
    ensures key.Some? ==> r >> 16 == hashCode(key.value) >> 16
  {
    if key.None? then 0 else Spread(hashCode(key.value))
  }

  /** The bucket of hash h in a table of n buckets: `h & (n - 1)`, reading
      the 32 bits of h as an unsigned number. */
  function Index(h: bv32, n: nat): (r: nat)
    requires 1 <= n
    ensures r < n
  {
    And(h as nat, n - 1)
  }

  /** In a power-of-two table, the bucket is the hash modulo the length. */
  lemma IndexIsMod(h: bv32, p: nat)
    ensures Index(h, Pow2(p)) == (h as nat) % Pow2(p)
  {
    AndLowMask(h as nat, p);
  }

  /** When a power-of-two table doubles, an entry of bucket i moves to
      bucket i or to bucket i + n. */
  lemma IndexDoubled(h: bv32, p: nat)
    ensures Index(h, Pow2(p + 1)) % Pow2(p) == Index(h, Pow2(p))
    ensures Index(h, Pow2(p + 1)) == Index(h, Pow2(p)) || Index(h, Pow2(p + 1)) == Index(h, Pow2(p)) + Pow2(p)
  {
    IndexIsMod(h, p);
    IndexIsMod(h, p + 1);
    ModDoubled(h as nat, Pow2(p));
  }

  // ---------------------------------------------------------------------
  // Buckets

  /** One mapping, with the hash of its key cached (the source's Node; its
      `next` link is the order of the chain). */
  datatype Node<K, V> = Node(hash: bv32, key: Option<K>, value: Option<V>)

  /** The node a chain holds for a key: the first one with that hash and
      an equal key. */
  function Find<K(==), V>(chain: seq<Node<K, V>>, hash: bv32, key: Option<K>): (r: Option<Node<K, V>>)
    ensures r.Some? ==> r.value in chain && r.value.hash == hash && r.value.key == key
  {
    if |chain| == 0 then None
    else if chain[0].hash == hash && chain[0].key == key then Some(chain[0])
    else Find(chain[1..], hash, key)
  }

  /** A chain has no node for a key exactly when none of its nodes has
      that hash and that key. */
  lemma {:induction false} FindNone<K, V>(chain: seq<Node<K, V>>, hash: bv32, key: Option<K>)
    ensures Find(chain, hash, key).None? <==> forall i :: 0 <= i < |chain| ==> !(chain[i].hash == hash && chain[i].key == key)
  {
    if |chain| > 0 && !(chain[0].hash == hash && chain[0].key == key) {
      FindNone(chain[1..], hash, key);
      assert forall i :: 1 <= i < |chain| ==> chain[i] == chain[1..][i - 1];
    }
  }

  /** The walk of put along a non-empty chain: it stops at the node with
      the given hash and key, or else at the last node. */
  method Walk<K(==), V>(chain: seq<Node<K, V>>, hash: bv32, key: Option<K>) returns (i: nat)
    requires chain != []
    ensures i < |chain|
    ensures Find(chain, hash, key).Some? ==> Find(chain, hash, key) == Some(chain[i])
    ensures Find(chain, hash, key).None? ==> i == |chain| - 1
    ensures chain[i].hash == hash && chain[i].key == key <==> Find(chain, hash, key).Some?
  {
    i := 0;
    while !(chain[i].hash == hash && chain[i].key == key) && i + 1 < |chain|
      invariant 0 <= i < |chain|
      invariant Find(chain, hash, key) == Find(chain[i..], hash, key)
    {
      assert chain[i..][1..] == chain[i + 1..];
      i := i + 1;
    }
  }

  /** The node a table holds for a key: the one in the bucket of its hash. */
  function Lookup<K(==), V>(t: seq<seq<Node<K, V>>>, hash: bv32, key: Option<K>): Option<Node<K, V>>
    requires 1 <= |t|
  {
    Find(t[Index(hash, |t|)], hash, key)
  }

  /** Bucket j has at most one node, and that node caches its key's hash
      and sits in the bucket of that hash. */
  ghost predicate PlacedAt<K, V>(t: seq<seq<Node<K, V>>>, hashCode: K -> bv32, j: nat)
    requires j < |t|
  {
    && |t[j]| <= 1
    && (|t[j]| == 1 ==> t[j][0].hash == Hash(hashCode, t[j][0].key) && Index(t[j][0].hash, |t|) == j)
  }

  /** The layout the table keeps: every bucket is placed. */
  ghost predicate Placed<K, V>(t: seq<seq<Node<K, V>>>, hashCode: K -> bv32) {
    && 1 <= |t|
    && forall j :: 0 <= j < |t| ==> PlacedAt(t, hashCode, j)
  }

  /** A laid-out table holds at most one node per bucket. */
  lemma PlacedCount<K, V>(t: seq<seq<Node<K, V>>>, hashCode: K -> bv32)
    requires Placed(t, hashCode)
    ensures Count(t) <= |t|
  {
    forall j | 0 <= j < |t|
      ensures |t[j]| <= 1
    {
      assert PlacedAt(t, hashCode, j);
    }
    CountAtMostLength(t);
  }

  /** The node held for key by a table, or by no table at all (no buckets). */
  function NodeIn<K(==), V>(t: seq<seq<Node<K, V>>>, hashCode: K -> bv32, key: Option<K>): Option<Node<K, V>> {
    if |t| == 0 then None else Lookup(t, Hash(hashCode, key), key)
  }

  /** The bucket of key is empty in a table, or there is no table at all. */
  ghost predicate FreeIn<K, V>(t: seq<seq<Node<K, V>>>, hashCode: K -> bv32, key: Option<K>) {
    |t| == 0 || t[Index(Hash(hashCode, key), |t|)] == []
  }

  /** Every node of a laid-out table is found by looking up its key. */
  lemma LookupFinds<K, V>(t: seq<seq<Node<K, V>>>, hashCode: K -> bv32, j: nat)
    requires Placed(t, hashCode) && j < |t| && |t[j]| == 1
    ensures Lookup(t, Hash(hashCode, t[j][0].key), t[j][0].key) == Some(t[j][0])
  {
    assert PlacedAt(t, hashCode, j);
  }

  /** A node that a lookup finds is the only node of its bucket. */
  lemma LookupFound<K, V>(t: seq<seq<Node<K, V>>>, hashCode: K -> bv32, hash: bv32, key: Option<K>)
    requires Placed(t, hashCode) && Lookup(t, hash, key).Some?
    ensures |t[Index(hash, |t|)]| == 1 && Lookup(t, hash, key) == Some(t[Index(hash, |t|)][0])
  {
    assert PlacedAt(t, hashCode, Index(hash, |t|));
  }

  /** The number of nodes in a table. */
  function Count<T>(t: seq<seq<T>>): nat {
    if |t| == 0 then 0 else |t[0]| + Count(t[1..])
  }

  lemma {:induction false} CountAppend<T>(a: seq<seq<T>>, b: seq<seq<T>>)
    ensures Count(a + b) == Count(a) + Count(b)
  {
    if |a| != 0 {
      assert (a + b)[1..] == a[1..] + b;
      CountAppend(a[1..], b);
    } else {
      assert a + b == b;
    }
  }

  /** Replacing one chain changes the count by the difference in length. */
  lemma {:induction false} CountUpdate<T>(t: seq<seq<T>>, j: nat, c: seq<T>)
    requires j < |t|
    ensures Count(t[j := c]) == Count(t) - |t[j]| + |c|
  {
    if j != 0 {
      assert t[j := c][1..] == t[1..][j - 1 := c];
      CountUpdate(t[1..], j - 1, c);
    } else {
      assert t[j := c][1..] == t[1..];
    }
  }

  /** Two tables whose chains pair up with a third's count as much as it. */
  lemma {:induction false} CountPairs<T>(a: seq<seq<T>>, b: seq<seq<T>>, c: seq<seq<T>>)
    requires |a| == |b| == |c|
    requires forall i :: 0 <= i < |c| ==> |a[i]| + |b[i]| == |c[i]|
    ensures Count(a) + Count(b) == Count(c)
  {
    if |c| != 0 {
      CountPairs(a[1..], b[1..], c[1..]);
    }
  }

  /** With at most one node per chain there are at most as many nodes as
      buckets. */
  lemma {:induction false} CountAtMostLength<T>(t: seq<seq<T>>)
    requires forall j :: 0 <= j < |t| ==> |t[j]| <= 1
    ensures Count(t) <= |t|
  {
    if |t| != 0 {
      CountAtMostLength(t[1..]);
    }
  }

  /** A table with no nodes has only empty chains. */
  lemma {:induction false} CountZero<T>(t: seq<seq<T>>, j: nat)
    requires Count(t) == 0 && j < |t|
    ensures t[j] == []
  {
    if j != 0 {
      CountZero(t[1..], j - 1);
    }
  }

  /** A table of n empty chains holds no nodes. */
  lemma {:induction false} EmptyCount<T>(n: nat)
    ensures Count(seq<seq<T>>(n, _ => [])) == 0
  {
    if n != 0 {
      assert seq<seq<T>>(n, _ => [])[1..] == seq<seq<T>>(n - 1, _ => []);
      EmptyCount<T>(n - 1);
    }
  }

  /** A table holding some node has a non-empty chain. */
  lemma {:induction false} CountPositive<T>(t: seq<seq<T>>) returns (j: nat)
    requires Count(t) != 0
    ensures j < |t| && t[j] != []
  {
    if t[0] != [] {
      j := 0;
    } else {
      var i := CountPositive(t[1..]);
      j := i + 1;
    }
  }

  // ---------------------------------------------------------------------
  // Doubling the table

  /** Bucket b of a table of newCap buckets once the first j buckets of t
      have been moved: the single node of bucket `b % |t|`, if that bucket
      is among the first j and its node's hash selects b. */
  function Moved<K, V>(t: seq<seq<Node<K, V>>>, j: nat, newCap: nat, b: nat): seq<Node<K, V>>
    requires 1 <= |t| && 1 <= newCap
  {
    var i := b % |t|;
    if i < j && |t[i]| == 1 && Index(t[i][0].hash, newCap) == b then t[i] else []
  }

  /** The new table of newCap buckets once the first j buckets of t have
      been moved into it. */
  function Rehash<K, V>(t: seq<seq<Node<K, V>>>, j: nat, newCap: nat): (r: seq<seq<Node<K, V>>>)
    requires 1 <= |t| && 1 <= newCap
    ensures |r| == newCap
  {
    seq(newCap, b requires 0 <= b < newCap => Moved(t, j, newCap, b))
  }

  /** Moving bucket j changes at most the bucket its node's hash selects. */
  lemma MovedNext<K, V>(t: seq<seq<Node<K, V>>>, j: nat, newCap: nat, b: nat)
    requires 1 <= |t| && 1 <= newCap && j < |t|
    ensures Moved(t, j + 1, newCap, b) ==
      if b % |t| == j && |t[j]| == 1 && Index(t[j][0].hash, newCap) == b then t[j] else Moved(t, j, newCap, b)
  {
  }

  /** Moving bucket j puts its node, if any, into the bucket its hash
      selects in the doubled table, and changes nothing else. */
  lemma RehashStep<K, V>(t: seq<seq<Node<K, V>>>, hashCode: K -> bv32, p: nat, j: nat)
    requires Placed(t, hashCode) && |t| == Pow2(p) && j < |t|
    ensures |t[j]| == 0 ==> Rehash(t, j + 1, Pow2(p + 1)) == Rehash(t, j, Pow2(p + 1))
    ensures |t[j]| == 1 ==> Rehash(t, j + 1, Pow2(p + 1)) == Rehash(t, j, Pow2(p + 1))[Index(t[j][0].hash, Pow2(p + 1)) := t[j]]
  {
    var big := Pow2(p + 1);
    var before := Rehash(t, j, big);
    var after := Rehash(t, j + 1, big);
    if |t[j]| == 0 {
      forall b | 0 <= b < big
        ensures after[b] == before[b]
      {
        MovedNext(t, j, big, b);
      }
    } else {
      var idx := Index(t[j][0].hash, big);
      assert PlacedAt(t, hashCode, j);
      IndexDoubled(t[j][0].hash, p);
      assert idx % |t| == j;
      forall b | 0 <= b < big
        ensures after[b] == before[idx := t[j]][b]
      {
        MovedNext(t, j, big, b);
      }
    }
  }

  /** The doubled table keeps the layout. */
  lemma RehashPlaced<K, V>(t: seq<seq<Node<K, V>>>, hashCode: K -> bv32, p: nat)
    requires Placed(t, hashCode) && |t| == Pow2(p)
    ensures Placed(Rehash(t, |t|, Pow2(p + 1)), hashCode)
  {
    var r := Rehash(t, |t|, Pow2(p + 1));
    forall b | 0 <= b < |r|
      ensures PlacedAt(r, hashCode, b)
    {
      assert PlacedAt(t, hashCode, b % |t|);
    }
  }

  /** Every lookup gives the same node in the doubled table. */
  lemma RehashLookup<K, V>(t: seq<seq<Node<K, V>>>, hashCode: K -> bv32, p: nat, hash: bv32, key: Option<K>)
    requires Placed(t, hashCode) && |t| == Pow2(p)
    ensures Lookup(Rehash(t, |t|, Pow2(p + 1)), hash, key) == Lookup(t, hash, key)
  {
    var big := Pow2(p + 1);
    var i, b := Index(hash, |t|), Index(hash, big);
    IndexDoubled(hash, p);
    assert Rehash(t, |t|, big)[b] == Moved(t, |t|, big, b);
    assert PlacedAt(t, hashCode, i);
    if t[i] != [] && t[i][0].hash != hash {
      assert Find(t[i], hash, key) == None;
    }
  }

  /** Bucket i of a table of n buckets splits into buckets i and i + n of
      the doubled table. */
  lemma RehashPair<K, V>(t: seq<seq<Node<K, V>>>, hashCode: K -> bv32, p: nat, i: nat)
    requires Placed(t, hashCode) && |t| == Pow2(p) && i < |t|
    ensures |Rehash(t, |t|, Pow2(p + 1))[i]| + |Rehash(t, |t|, Pow2(p + 1))[i + |t|]| == |t[i]|
  {
    var n := |t|;
    DivModUnique(i, n, 0, i);
    DivModUnique(i + n, n, 1, i);
    assert PlacedAt(t, hashCode, i);
    if |t[i]| == 1 {
      IndexDoubled(t[i][0].hash, p);
    }
  }

  /** The doubled table holds as many nodes. */
  lemma RehashCount<K, V>(t: seq<seq<Node<K, V>>>, hashCode: K -> bv32, p: nat)
    requires Placed(t, hashCode) && |t| == Pow2(p)
    ensures Count(Rehash(t, |t|, Pow2(p + 1))) == Count(t)
  {
    var n := |t|;
    var r := Rehash(t, n, Pow2(p + 1));
    var lo, hi := r[..n], r[n..];
    forall i | 0 <= i < n
      ensures |lo[i]| + |hi[i]| == |t[i]|
    {
      RehashPair(t, hashCode, p, i);
    }
    CountPairs(lo, hi, t);
    assert r == lo + hi;
    CountAppend(lo, hi);
  }

  /** A value is held in some chain exactly when some key maps to it. */
  lemma ValuesOfKeys<K, V>(t: seq<seq<Node<K, V>>>, hashCode: K -> bv32, v: Option<V>)
    requires Placed(t, hashCode)
    ensures (exists j, n :: 0 <= j < |t| && 0 <= n < |t[j]| && t[j][n].value == v)
        <==> (exists k :: NodeIn(t, hashCode, k).Some? && NodeIn(t, hashCode, k).value.value == v)
  {
    if j, n :| 0 <= j < |t| && 0 <= n < |t[j]| && t[j][n].value == v {
      assert PlacedAt(t, hashCode, j);
      LookupFinds(t, hashCode, j);
      var k := t[j][0].key;
      assert NodeIn(t, hashCode, k) == Some(t[j][0]);
    }
    if k :| NodeIn(t, hashCode, k).Some? && NodeIn(t, hashCode, k).value.value == v {
      LookupFound(t, hashCode, Hash(hashCode, k), k);
      var j := Index(Hash(hashCode, k), |t|);
      assert t[j][0].value == v;
    }
  }

  /** The loop of resize that moves every bucket of a table of 2^p buckets
      into a fresh table of twice as many, emptying the old buckets as it
      goes. */
  method Transfer<K, V>(oldTable: array<seq<Node<K, V>>>, newTable: array<seq<Node<K, V>>>, ghost hashCode: K -> bv32, ghost p: nat)
    requires oldTable != newTable
    requires Placed(oldTable[..], hashCode) && oldTable.Length == Pow2(p) && newTable.Length == Pow2(p + 1)
    requires forall b :: 0 <= b < newTable.Length ==> newTable[b] == []
    modifies oldTable, newTable
    ensures newTable[..] == Rehash(old(oldTable[..]), oldTable.Length, newTable.Length)
    ensures forall j :: 0 <= j < oldTable.Length ==> oldTable[j] == []
  {
    ghost var orig := oldTable[..];
    assert newTable[..] == Rehash(orig, 0, newTable.Length);
    for j := 0 to oldTable.Length
      invariant forall i :: 0 <= i < j ==> oldTable[i] == []
      invariant forall i :: j <= i < oldTable.Length ==> oldTable[i] == orig[i]
      invariant newTable[..] == Rehash(orig, j, newTable.Length)
    {
      MoveBucket(oldTable, newTable, orig, hashCode, p, j);
    }
  }

  /** One step of the transfer: bucket j of the old table, holding at most
      one node, is emptied into the bucket of the new table its hash
      selects. */
  method MoveBucket<K, V>(oldTable: array<seq<Node<K, V>>>, newTable: array<seq<Node<K, V>>>,
                          ghost orig: seq<seq<Node<K, V>>>, ghost hashCode: K -> bv32, ghost p: nat, j: nat)
    requires oldTable != newTable
    requires Placed(orig, hashCode) && |orig| == oldTable.Length == Pow2(p) && newTable.Length == Pow2(p + 1)
    requires j < oldTable.Length && oldTable[j] == orig[j]
    requires newTable[..] == Rehash(orig, j, newTable.Length)
    modifies oldTable, newTable
    ensures oldTable[..] == old(oldTable[..])[j := []]
    ensures newTable[..] == Rehash(orig, j + 1, newTable.Length)
  {
    var e := oldTable[j];
    assert PlacedAt(orig, hashCode, j);
    RehashStep(orig, hashCode, p, j);
    if e != [] {
      oldTable[j] := [];
      if |e| == 1 {
        newTable[Index(e[0].hash, newTable.Length)] := e;
      } else {
        // The split of a longer chain: no chain holds more than one node.
        assert false;
      }
    } else {
      assert oldTable[..] == old(oldTable[..])[j := []];
    }
  }

  /** Storing a node as the only node of the bucket of its hash keeps the
      table laid out. */
  lemma StorePlaced<K, V>(t: seq<seq<Node<K, V>>>, hashCode: K -> bv32, key: Option<K>, value: Option<V>)
    requires Placed(t, hashCode)
    ensures var hash := Hash(hashCode, key);
      Placed(t[Index(hash, |t|) := [Node(hash, key, value)]], hashCode)
  {
    var hash := Hash(hashCode, key);
    var t' := t[Index(hash, |t|) := [Node(hash, key, value)]];
    forall j | 0 <= j < |t'|
      ensures PlacedAt(t', hashCode, j)
    {
      assert PlacedAt(t, hashCode, j);
    }
  }

  /** Storing the node of key as the only node of its bucket, when that
      bucket is empty or already holds key: key finds the new node and
      every other key finds what it found before. */
  lemma StoreLookups<K, V>(t: seq<seq<Node<K, V>>>, hashCode: K -> bv32, key: Option<K>, value: Option<V>)
    requires Placed(t, hashCode)
    requires t[Index(Hash(hashCode, key), |t|)] == [] || NodeIn(t, hashCode, key).Some?
    ensures var hash := Hash(hashCode, key);
      var t' := t[Index(hash, |t|) := [Node(hash, key, value)]];
      && NodeIn(t', hashCode, key) == Some(Node(hash, key, value))
      && forall k :: k != key ==> NodeIn(t', hashCode, k) == NodeIn(t, hashCode, k)
  {
    var hash := Hash(hashCode, key);
    var i := Index(hash, |t|);
    var t' := t[i := [Node(hash, key, value)]];
    assert Find(t'[i], hash, key) == Some(Node(hash, key, value));
    if t[i] != [] {
      LookupFound(t, hashCode, hash, key);
    }
    forall k | k != key
      ensures NodeIn(t', hashCode, k) == NodeIn(t, hashCode, k)
    {
      StoreLookupOther(t, hashCode, key, value, k);
    }
  }

  /** Storing the node of key leaves the lookup of every other key as it was. */
  lemma StoreLookupOther<K, V>(t: seq<seq<Node<K, V>>>, hashCode: K -> bv32, key: Option<K>, value: Option<V>, k: Option<K>)
    requires Placed(t, hashCode) && k != key
    requires var i := Index(Hash(hashCode, key), |t|); t[i] == [] || t[i][0].key == key
    ensures var hash := Hash(hashCode, key);
      NodeIn(t[Index(hash, |t|) := [Node(hash, key, value)]], hashCode, k) == NodeIn(t, hashCode, k)
  {
    var hash := Hash(hashCode, key);
    var i := Index(hash, |t|);
    var t' := t[i := [Node(hash, key, value)]];
    var h := Hash(hashCode, k);
    var j := Index(h, |t|);
    if j == i {
      assert PlacedAt(t, hashCode, i);
      assert Find(t'[j], h, k) == None;
      assert Find(t[j], h, k) == None;
    } else {
      assert t'[j] == t[j];
    }
  }

  /** Storing the node of key, when its bucket is empty or already holds
      key, keeps the layout; the count grows by one exactly when the bucket
      was empty. */
  lemma Store<K, V>(t: seq<seq<Node<K, V>>>, hashCode: K -> bv32, key: Option<K>, value: Option<V>,
                    size: int, threshold: int, log: nat)
    requires Layout(t, size, threshold, log, hashCode)
    requires t[Index(Hash(hashCode, key), |t|)] == [] || NodeIn(t, hashCode, key).Some?
    ensures var hash := Hash(hashCode, key);
      var t' := t[Index(hash, |t|) := [Node(hash, key, value)]];
      && Layout(t', size + (if t[Index(hash, |t|)] == [] then 1 else 0), threshold, log, hashCode)
      && NodeIn(t', hashCode, key) == Some(Node(hash, key, value))
      && forall k :: k != key ==> NodeIn(t', hashCode, k) == NodeIn(t, hashCode, k)
  {
    var hash := Hash(hashCode, key);
    var i := Index(hash, |t|);
    if t[i] != [] {
      LookupFound(t, hashCode, hash, key);
    }
    CountUpdate(t, i, [Node(hash, key, value)]);
    StorePlaced(t, hashCode, key, value);
    StoreLookups(t, hashCode, key, value);
  }

  /** A table of 2^log buckets, 16 to 2^30, laid out, holding size nodes,
      whose threshold is three quarters of its length, or Integer.MAX_VALUE
      once the length is at its maximum. */
  ghost predicate Layout<K, V>(t: seq<seq<Node<K, V>>>, size: int, threshold: int, log: nat, hashCode: K -> bv32) {
    && 4 <= log <= 30 && |t| == Pow2(log)
    && Placed(t, hashCode)
    && size == Count(t)
    && (threshold == 3 * Pow2(log - 2) || (log == 30 && threshold == IntMax))
  }

  /** A table of 2^p buckets, 16 to 2^30, is at the largest capacity
      exactly when p is 30. */
  lemma LengthAtMaximum(p: nat)
    requires 4 <= p <= 30
    ensures Pow2(p) >= MaximumCapacity <==> p == 30
    ensures p < 30 ==> 2 * Pow2(p) == Pow2(p + 1) <= MaximumCapacity
  {
    MaximumCapacityIsPow2();
    if p < 30 {
      Pow2Grows(p, 29);
    }
  }

  /** At the largest capacity the threshold can be lifted to
      Integer.MAX_VALUE: the table keeps its layout and never holds more. */
  lemma Saturated<K, V>(t: seq<seq<Node<K, V>>>, hashCode: K -> bv32, p: nat, size: int, threshold: int)
    requires Layout(t, size, threshold, p, hashCode) && |t| >= MaximumCapacity
    ensures Layout(t, size, IntMax, p, hashCode) && size <= IntMax
  {
    LengthAtMaximum(p);
    MaximumCapacityIsPow2();
    PlacedCount(t, hashCode);
  }

  /** The table allocated on first use: 16 empty buckets, threshold 12. */
  lemma FirstTable<K, V>(hashCode: K -> bv32)
    ensures Layout(seq<seq<Node<K, V>>>(DefaultInitialCapacity, _ => []), 0, DefaultThreshold, 4, hashCode)
  {
    EmptyCount<Node<K, V>>(DefaultInitialCapacity);
  }

  /** Doubling a table below the largest capacity, along with its
      threshold, keeps the layout, leaves room for one more mapping than
      the old threshold, and keeps every key's node. */
  lemma Doubled<K, V>(t: seq<seq<Node<K, V>>>, hashCode: K -> bv32, p: nat, size: int, threshold: int)
    requires Layout(t, size, threshold, p, hashCode) && p < 30 && size <= threshold + 1
    ensures Layout(Rehash(t, |t|, Pow2(p + 1)), size, 2 * threshold, p + 1, hashCode)
    ensures size <= 2 * threshold
    ensures forall k :: Lookup(Rehash(t, |t|, Pow2(p + 1)), Hash(hashCode, k), k) == Lookup(t, Hash(hashCode, k), k)
  {
    assert Pow2(p - 1) == 2 * Pow2(p - 2);
    RehashPlaced(t, hashCode, p);
    RehashCount(t, hashCode, p);
    forall k
      ensures Lookup(Rehash(t, |t|, Pow2(p + 1)), Hash(hashCode, k), k) == Lookup(t, Hash(hashCode, k), k)
    {
      RehashLookup(t, hashCode, p, Hash(hashCode, k), k);
    }
  }

  // ---------------------------------------------------------------------
  // The lookup as written

  /** What a call yields, with Java's null dereference made explicit. */
  datatype Outcome<T> = Returns(value: T) | NullDereference

  /** getNode as written: it reads the table's length before testing the
      table for null. */
  function GetNodeAsWritten<K(==), V>(table: Option<seq<seq<Node<K, V>>>>, hash: bv32, key: Option<K>): (r: Outcome<Option<Node<K, V>>>)
    ensures table.Some? ==> r.Returns?
    ensures r.Returns? && r.value.Some? ==> r.value.value.hash == hash && r.value.value.key == key
  {
    match table
    case None => NullDereference
    case Some(t) => if |t| == 0 then Returns(None) else Returns(Lookup(t, hash, key))
  }

  /** As written, get and containsKey on a map that was never written to
      throw instead of reporting that the key is absent. */
  lemma FreshMapLookupThrows<K, V>(hashCode: K -> bv32, key: Option<K>)
    ensures GetNodeAsWritten<K, V>(None, Hash(hashCode, key), key) == NullDereference
  {
  }

  /** Once a table exists, getNode as written returns what the corrected
      lookup (HashMap.GetNode, which ensures `Lookup(buckets, hash, key)`
      for a non-null table) returns. */
  lemma GetNodeAgrees<K, V>(t: seq<seq<Node<K, V>>>, hash: bv32, key: Option<K>)
    requires 1 <= |t|
    ensures GetNodeAsWritten(Some(t), hash, key) == Returns(Lookup(t, hash, key))
  {
  }

  // ---------------------------------------------------------------------
  // The map

  class HashMap<K(==, !new), V(==, !new)> {
    /** The buckets; null until the first put. */
    var table: array?<seq<Node<K, V>>>
    var size: int
    var threshold: int
    /** The contents of the table; empty while there is none. */
    ghost var buckets: seq<seq<Node<K, V>>>
    /** The table has 2^log buckets. */
    ghost var log: nat
    const hashCode: K -> bv32

    /** The table, once there is one, has its layout; a map not yet
        written to has neither table nor threshold. */
    ghost predicate TableValid()
      reads this, table
    {
      if table == null then buckets == [] && size == 0 && threshold == 0
      else table[..] == buckets && Layout(buckets, size, threshold, log, hashCode)
    }

    /** Between calls the map also holds at most `threshold` mappings. */
    ghost predicate Valid()
      reads this, table
    {
      TableValid() && size <= threshold
    }

    /** The node the map holds for key, if any. */
    ghost function NodeOf(key: Option<K>): Option<Node<K, V>>
      reads this
    {
      NodeIn(buckets, hashCode, key)
    }

    /** The bucket of key is empty, or there is no table yet. */
    ghost predicate BucketFree(key: Option<K>)
      reads this
    {
      FreeIn(buckets, hashCode, key)
    }

    constructor (hashCode: K -> bv32)
      ensures Valid() && table == null && this.hashCode == hashCode
      ensures forall k :: NodeOf(k) == None
    {
      table := null;
      size := 0;
      threshold := 0;
      buckets := [];
      this.hashCode := hashCode;
    }

    /** The number of mappings: the nodes in the table, at most one per
        bucket. */
    function Size(): (r: int)
      reads this, table
      requires TableValid()
      ensures 0 <= r && r == Count(buckets) && (table != null ==> r <= table.Length)
    {
      if table != null then PlacedCount(buckets, hashCode); size else size
    }

    /** Empty exactly when no key has a node. */
    function IsEmpty(): (r: bool)
      reads this, table
      requires TableValid()
      ensures r <==> forall k :: NodeOf(k) == None
    {
      NoKeysWhenEmpty();
      size == 0
    }

    lemma NoKeysWhenEmpty()
      requires TableValid()
      ensures size == 0 <==> forall k :: NodeOf(k) == None
    {
      if table != null {
        if size == 0 {
          forall k
            ensures NodeOf(k) == None
          {
            CountZero(buckets, Index(Hash(hashCode, k), |buckets|));
          }
        } else {
          var j := CountPositive(buckets);
          assert PlacedAt(buckets, hashCode, j);
          var node := buckets[j][0];
          LookupFinds(buckets, hashCode, j);
          assert NodeOf(node.key) == Some(node);
        }
      }
    }

    /** The node for key, found by walking the chain of its bucket; none
        when there is no table yet. */
    method GetNode(hash: bv32, key: Option<K>) returns (r: Option<Node<K, V>>)
      requires TableValid()
      ensures table == null ==> r == None
      ensures table != null ==> r == Lookup(buckets, hash, key)
    {
      if table != null && table.Length > 0 {
        var n := table.Length;
        var chain := table[Index(hash, n)];
        var i := 0;
        while i < |chain|
          invariant 0 <= i <= |chain|
          invariant Find(chain, hash, key) == Find(chain[i..], hash, key)
        {
          var e := chain[i];
          assert chain[i..][1..] == chain[i + 1..];
          if e.hash == hash && e.key == key {
            return Some(e);
          }
          i := i + 1;
        }
      }
      return None;
    }

    /** The value mapped to key; null when there is none. */
    method Get(key: Option<K>) returns (r: Option<V>)
      requires TableValid()
      ensures NodeOf(key).None? ==> r == None
      ensures NodeOf(key).Some? ==> r == NodeOf(key).value.value
    {
      var e := GetNode(Hash(hashCode, key), key);
      r := if e.None? then None else e.value.value;
    }

    method ContainsKey(key: Option<K>) returns (r: bool)
      requires TableValid()
      ensures r <==> NodeOf(key).Some?
    {
      var e := GetNode(Hash(hashCode, key), key);
      r := e.Some?;
    }

    /** Allocates the table on first use and doubles it afterwards; at the
        largest capacity it only lifts the threshold. Every key keeps its
        node. */
    method Resize() returns (t: array<seq<Node<K, V>>>)
      requires TableValid() && size <= threshold + 1
      modifies this, table
      ensures Valid() && t == table && size == old(size)
      ensures forall k :: NodeIn(buckets, hashCode, k) == NodeIn(old(buckets), hashCode, k)
      ensures old(table) == null ==>
        && fresh(table) && table.Length == DefaultInitialCapacity && threshold == DefaultThreshold
        && buckets == seq(DefaultInitialCapacity, _ => [])
      ensures old(table) != null && old(table.Length) >= MaximumCapacity ==>
        table == old(table) && unchanged(table) && buckets == old(buckets) && threshold == IntMax
      ensures old(table) != null && old(table.Length) < MaximumCapacity ==>
        && fresh(table) && table.Length == 2 * old(table.Length) && threshold == 2 * old(threshold)
        && buckets == Rehash(old(buckets), |old(buckets)|, 2 * |old(buckets)|)
        && forall j :: 0 <= j < old(table).Length ==> old(table)[j] == []
    {
      var oldCap := if table == null then 0 else table.Length;
      var oldThr := threshold;
      var newCap, newThr;
      assert table != null <==> oldCap > 0;
      if oldCap > 0 {
        LengthAtMaximum(log);
        if oldCap >= MaximumCapacity {
          Saturated(buckets, hashCode, log, size, threshold);
          threshold := IntMax;
          return table;
        }
        newCap := oldCap * 2;
        newThr := oldThr * 2;
        t := Double(newCap, newThr);
        return t;
      }
      newCap := DefaultInitialCapacity;
      newThr := DefaultThreshold;
      threshold := newThr;
      var newTable := new seq<Node<K, V>>[newCap](_ => []);
      FirstTable<K, V>(hashCode);
      buckets := seq(DefaultInitialCapacity, _ => []);
      log := 4;
      assert newTable[..] == buckets;
      table := newTable;
      return newTable;
    }

    /** The doubling half of resize: a table twice as long, every node moved
        to its bucket there, the old table emptied, the threshold doubled. */
    method Double(newCap: int, newThr: int) returns (t: array<seq<Node<K, V>>>)
      requires TableValid() && size <= threshold + 1 && table != null
      requires table.Length < MaximumCapacity
      requires newCap == 2 * table.Length && newThr == 2 * threshold
      modifies this, table
      ensures Valid() && t == table && fresh(table) && size == old(size)
      ensures threshold == newThr
      ensures buckets == Rehash(old(buckets), |old(buckets)|, newCap)
      ensures forall k :: NodeIn(buckets, hashCode, k) == NodeIn(old(buckets), hashCode, k)
      ensures forall j :: 0 <= j < old(table).Length ==> old(table)[j] == []
    {
      ghost var p := log;
      ghost var orig := buckets;
      LengthAtMaximum(p);
      assert newCap == Pow2(p + 1);
      threshold := newThr;
      var newTable := new seq<Node<K, V>>[newCap](_ => []);
      Transfer(table, newTable, hashCode, p);
      Doubled(orig, hashCode, p, size, newThr / 2);
      buckets := Rehash(orig, |orig|, newCap);
      log := p + 1;
      assert newTable[..] == buckets;
      table := newTable;
      return newTable;
    }

    /** Maps key to value. A key already present gets the new value and its
        old value is returned; a new key whose bucket is empty is stored
        there, and the table doubles once the threshold is passed; a new key
        whose bucket is taken is dropped and value itself is returned. */
    method Put(key: Option<K>, value: Option<V>) returns (r: Option<V>)
      requires Valid()
      modifies this, table
      ensures Valid()
      ensures forall k :: k != key ==> NodeIn(buckets, hashCode, k) == NodeIn(old(buckets), hashCode, k)
      ensures old(NodeOf(key)).Some? ==>
        && r == old(NodeOf(key)).value.value
        && NodeOf(key) == Some(Node(Hash(hashCode, key), key, value))
        && size == old(size)
      ensures old(NodeOf(key)).None? && old(BucketFree(key)) ==>
        && r == None
        && NodeOf(key) == Some(Node(Hash(hashCode, key), key, value))
        && size == old(size) + 1
      ensures old(NodeOf(key)).None? && !old(BucketFree(key)) ==>
        && r == value && size == old(size) && buckets == old(buckets)
        && table == old(table) && unchanged(table)
      ensures table != null && (fresh(table) || table == old(table))
      ensures old(table) == null ==> table.Length == DefaultInitialCapacity && threshold == DefaultThreshold
      ensures old(table) != null && size <= old(threshold) ==>
        table == old(table) && threshold == old(threshold)
      ensures old(table) != null && size > old(threshold) ==>
        if old(table.Length) < MaximumCapacity
        then fresh(table) && table.Length == 2 * old(table.Length) && threshold == 2 * old(threshold)
        else table == old(table) && threshold == IntMax
    {
      if table == null {
        var _ := Resize();
        assert BucketFree(key);
      }
      r := PutInTable(key, value);
      if size > threshold {
        var _ := Resize();
      }
    }

    /** Put once the table exists, up to the test of the threshold: the
        node is stored or updated in place, or dropped, and only storing a
        new node can carry the size past the threshold. */
    method PutInTable(key: Option<K>, value: Option<V>) returns (r: Option<V>)
      requires Valid() && table != null
      modifies table, `buckets, `size
      ensures TableValid() && size <= threshold + 1
      ensures forall k :: k != key ==> NodeIn(buckets, hashCode, k) == NodeIn(old(buckets), hashCode, k)
      ensures NodeIn(old(buckets), hashCode, key).Some? ==>
        && r == NodeIn(old(buckets), hashCode, key).value.value
        && NodeIn(buckets, hashCode, key) == Some(Node(Hash(hashCode, key), key, value))
        && size == old(size)
      ensures NodeIn(old(buckets), hashCode, key).None? && FreeIn(old(buckets), hashCode, key) ==>
        && r == None
        && NodeIn(buckets, hashCode, key) == Some(Node(Hash(hashCode, key), key, value))
        && size == old(size) + 1
      ensures NodeIn(old(buckets), hashCode, key).None? && !FreeIn(old(buckets), hashCode, key) ==>
        && r == value && size == old(size) && buckets == old(buckets) && unchanged(table)
    {
      var hash := Hash(hashCode, key);
      var n := table.Length;
      var index := Index(hash, n);
      var chain := table[index];
      ghost var found := NodeIn(buckets, hashCode, key);
      if chain == [] {
        assert found == None && FreeIn(buckets, hashCode, key);
        StoreNode(index, Node(hash, key, value));
      } else {
        var i := Walk(chain, hash, key);
        if chain[i].hash == hash && chain[i].key == key {
          r := chain[i].value;
          assert PlacedAt(buckets, hashCode, index);
          assert found == Some(chain[i]);
          StoreNode(index, chain[i].(value := value));
          return r;
        }
        assert found == None && !FreeIn(buckets, hashCode, key);
        // The new node is built but never linked into the chain.
        return value;
      }
      return None;
    }

    /** Makes node, the node of key, the only node of the bucket of its
        hash, when that bucket is empty or already holds key, counting it
        when the bucket was empty: the table keeps its layout, key finds
        node and every other key what it found before. */
    method StoreNode(index: nat, node: Node<K, V>)
      requires Valid() && table != null
      requires node.hash == Hash(hashCode, node.key) && index == Index(node.hash, table.Length)
      requires table[index] == [] || NodeOf(node.key).Some?
      modifies table, `buckets, `size
      ensures TableValid() && size <= threshold + 1
      ensures size == old(size) + (if old(table[index]) == [] then 1 else 0)
      ensures NodeOf(node.key) == Some(node)
      ensures forall k :: k != node.key ==> NodeIn(buckets, hashCode, k) == NodeIn(old(buckets), hashCode, k)
    {
      Store(buckets, hashCode, node.key, node.value, size, threshold, log);
      if table[index] == [] {
        size := size + 1;
      }
      table[index] := [node];
      buckets := buckets[index := [node]];
    }

    /** Whether some key maps to value; always false on a map that holds
        nothing. */
    method ContainsValue(value: Option<V>) returns (r: bool)
      requires TableValid()
      ensures r <==> exists k :: NodeOf(k).Some? && NodeOf(k).value.value == value
    {
      NoKeysWhenEmpty();
      if table != null && size > 0 {
        ValuesOfKeys(buckets, hashCode, value);
        for i := 0 to table.Length
          invariant forall j, m :: 0 <= j < i && 0 <= m < |buckets[j]| ==> buckets[j][m].value != value
        {
          var e := table[i];
          var m := 0;
          while m < |e|
            invariant 0 <= m <= |e|
            invariant forall m' :: 0 <= m' < m ==> e[m'].value != value
          {
            if e[m].value == value {
              assert PlacedAt(buckets, hashCode, i);
              LookupFinds(buckets, hashCode, i);
              assert NodeOf(e[0].key) == Some(e[0]);
              return true;
            }
            m := m + 1;
          }
        }
      }
      return false;
    }
  }
}
