/**
 The open-addressing hash table of the compact build: quadratic probing by triangular numbers in
 a table whose capacity is a power of two.
 */
module HashTable {
  import opened Basics

  function Triangle(p: nat): nat {
    if p == 0 then 0 else Triangle(p - 1) + p
  }

  /** The bucket inspected by probe p. */
  function Bucket(h: nat, p: nat, capacity: nat): (b: nat)
    requires 0 < capacity
    ensures b < capacity
  {
    (h + Triangle(p)) % capacity
  }

  predicate PowerOfTwo(n: nat) {
    n == 1 || (n > 1 && n % 2 == 0 && PowerOfTwo(n / 2))
  }

  predicate Multiple(n: nat, q: int, x: int) {
    x == n * q
  }

  ghost predicate Divides(n: nat, x: int) {
    exists q :: Multiple(n, q, x)
  }

  lemma {:induction false} TriangleTwice(p: nat)
    ensures 2 * Triangle(p) == p * (p + 1)
  {
    if 0 < p {
      TriangleTwice(p - 1);
      assert (p - 1) * p + 2 * p == p * (p + 1);
    }
  }

  /** A power of two that divides a product with an odd factor divides the other factor. */
  lemma {:induction false} OddFactor(n: nat, a: int, b: int)
    requires PowerOfTwo(n) && a % 2 == 1 && Divides(n, a * b)
    ensures Divides(n, b)
  {
    var q :| Multiple(n, q, a * b);
    if n == 1 {
      assert Multiple(1, b, b);
    } else {
      var m := n / 2;
      assert n * q == 2 * (m * q);
      EvenFactor(a, b, m * q);
      var c := b / 2;
      assert a * b == 2 * (a * c);
      assert Multiple(m, q, a * c);
      OddFactor(m, a, c);
      DoubleDivides(m, c);
    }
  }

  lemma EvenFactor(a: int, b: int, x: int)
    requires a % 2 == 1 && a * b == 2 * x
    ensures b % 2 == 0
  {
    var c := a / 2;
    assert a == 2 * c + 1;
    assert a * b == 2 * (c * b) + b;
  }

  lemma DoubleDivides(m: nat, c: int)
    requires Divides(m, c)
    ensures Divides(2 * m, 2 * c)
  {
    var q :| Multiple(m, q, c);
    assert 2 * (m * q) == (2 * m) * q;
    assert Multiple(2 * m, q, 2 * c);
  }

  lemma SameRemainder(x: int, y: int, n: nat)
    requires 0 < n && x % n == y % n
    ensures Divides(n, y - x)
  {
    var q, r := y / n, x / n;
    assert n * q - n * r == n * (q - r);
    assert Multiple(n, q - r, y - x);
  }

  lemma SmallMultiple(n: nat, x: int)
    requires Divides(n, x) && 0 < x
    ensures n <= x
  {
    var q :| Multiple(n, q, x);
    assert 0 < q;
  }

  /** The difference of two triangular numbers, doubled, has one odd and one even factor. */
  lemma TriangleDifference(p: nat, q: nat)
    requires p < q
    ensures 2 * (Triangle(q) - Triangle(p)) == (q - p) * (q + p + 1)
    ensures (q - p) % 2 == 1 || (q + p + 1) % 2 == 1
  {
    TriangleTwice(p);
    TriangleTwice(q);
    assert (q - p) * (q + p + 1) == q * (q + 1) - p * (p + 1);
  }

  /** Two different probes never look at the same bucket. */
  lemma ProbesDiffer(h: nat, p: nat, q: nat, capacity: nat)
    requires PowerOfTwo(capacity) && p < q < capacity
    ensures Bucket(h, p, capacity) != Bucket(h, q, capacity)
  {
    if Bucket(h, p, capacity) == Bucket(h, q, capacity) {
      SameRemainder(h + Triangle(p), h + Triangle(q), capacity);
      TriangleDifference(p, q);
      DoubleDivides(capacity, Triangle(q) - Triangle(p));
      NoSmallProduct(capacity, q - p, q + p + 1);
    }
  }

  lemma NoSmallProduct(capacity: nat, a: nat, b: nat)
    requires PowerOfTwo(capacity) && 0 < a < 2 * capacity && 0 < b < 2 * capacity && (a % 2 == 1 || b % 2 == 1)
    ensures !Divides(2 * capacity, a * b)
  {
    if Divides(2 * capacity, a * b) {
      if a % 2 == 1 {
        OddFactor(2 * capacity, a, b);
        SmallMultiple(2 * capacity, b);
      } else {
        assert a * b == b * a;
        OddFactor(2 * capacity, b, a);
        SmallMultiple(2 * capacity, a);
      }
    }
  }

  /** The buckets the first n probes look at. */
  ghost function Probed(h: nat, n: nat, capacity: nat): set<nat>
    requires 0 < capacity
  {
    set p | 0 <= p < n :: Bucket(h, p, capacity)
  }

  lemma {:induction false} ProbedSize(h: nat, n: nat, capacity: nat)
    requires PowerOfTwo(capacity) && n <= capacity
    ensures |Probed(h, n, capacity)| == n
  {
    if 0 < n {
      ProbedSize(h, n - 1, capacity);
      var last := Bucket(h, n - 1, capacity);
      assert Probed(h, n, capacity) == Probed(h, n - 1, capacity) + {last};
      forall p | 0 <= p < n - 1 ensures Bucket(h, p, capacity) != last {
        ProbesDiffer(h, p, n - 1, capacity);
      }
      assert last !in Probed(h, n - 1, capacity);
    }
  }

  predicate IsBelow(b: nat, n: nat) {
    b < n
  }

  ghost function Below(n: nat): set<nat> {
    set b: nat | 0 <= b < n && IsBelow(b, n)
  }

  lemma {:induction false} RangeSize(n: nat)
    ensures |Below(n)| == n
  {
    if 0 < n {
      RangeSize(n - 1);
      assert Below(n) == Below(n - 1) + {n - 1};
    }
  }

  lemma SubsetSize(a: set<nat>, b: set<nat>)
    requires a <= b
    ensures |a| <= |b| && (|a| == |b| ==> a == b)
  {
    assert b == a + (b - a);
    assert |b| == |a| + |b - a|;
  }

  /** Triangular probing is complete: as many probes as there are buckets visit every bucket. */
  lemma ProbingIsComplete(h: nat, b: nat, capacity: nat)
    requires PowerOfTwo(capacity) && b < capacity
    ensures exists p :: 0 <= p < capacity && Bucket(h, p, capacity) == b
  {
    ProbedSize(h, capacity, capacity);
    RangeSize(capacity);
    SubsetSize(Probed(h, capacity, capacity), Below(capacity));
    assert b in Below(capacity);
  }

  // The table

  datatype Item = Item(key: Option<nat>, value: int)

  ghost function Occupied(s: seq<Item>, n: nat): set<nat>
    requires n <= |s|
  {
    set b | 0 <= b < n && s[b].key.Some?
  }

  /** Bucket b holds a key, and every bucket probed for this key before b holds one, too. */
  ghost predicate Reachable(s: seq<Item>, hash: nat -> nat, b: nat)
    requires b < |s| && s[b].key.Some?
  {
    exists p :: 0 <= p < |s| && Reaches(s, hash(s[b].key.value), p, b)
  }

  ghost predicate Reaches(s: seq<Item>, h: nat, p: nat, b: nat)
    requires 0 < |s|
  {
    Bucket(h, p, |s|) == b && AllTaken(s, h, p)
  }

  predicate AllTaken(s: seq<Item>, h: nat, p: nat)
    requires 0 < |s|
  {
    forall q :: 0 <= q < p ==> s[Bucket(h, q, |s|)].key.Some?
  }

  ghost predicate Holds(s: seq<Item>, hash: nat -> nat, m: map<nat, int>, b: nat)
    requires b < |s|
  {
    s[b].key.Some? ==> s[b].key.value in m && m[s[b].key.value] == s[b].value && Reachable(s, hash, b)
  }

  predicate KeyAt(s: seq<Item>, key: nat, b: nat)
    requires b < |s|
  {
    s[b].key == Some(key)
  }

  /** The buckets hold exactly the map m, each key once, where probing finds it. */
  ghost predicate Consistent(s: seq<Item>, hash: nat -> nat, m: map<nat, int>) {
    && (forall b :: 0 <= b < |s| ==> Holds(s, hash, m, b))
    && (forall key :: key in m ==> exists b :: 0 <= b < |s| && KeyAt(s, key, b))
    && (forall key, b, c :: 0 <= b < |s| && 0 <= c < |s| && KeyAt(s, key, b) && KeyAt(s, key, c) ==> b == c)
  }

  /** If a probe sequence runs through the whole table, the table is full. */
  lemma AllTakenIsFull(s: seq<Item>, h: nat)
    requires PowerOfTwo(|s|) && AllTaken(s, h, |s|)
    ensures |Occupied(s, |s|)| == |s|
  {
    ProbedSize(h, |s|, |s|);
    RangeSize(|s|);
    SubsetSize(Probed(h, |s|, |s|), Occupied(s, |s|));
    assert forall b :: b in Occupied(s, |s|) ==> b in Below(|s|);
    SubsetSize(Occupied(s, |s|), Below(|s|));
  }

  /** The probe that finds a key of the table. */
  lemma FoundBy(s: seq<Item>, hash: nat -> nat, m: map<nat, int>, key: nat) returns (r: nat)
    requires 0 < |s| && Consistent(s, hash, m) && key in m
    ensures r < |s| && KeyAt(s, key, Bucket(hash(key), r, |s|)) && AllTaken(s, hash(key), r)
  {
    var b :| 0 <= b < |s| && KeyAt(s, key, b);
    assert Holds(s, hash, m, b);
    r :| 0 <= r < |s| && Reaches(s, hash(key), r, b);
  }

  /** A probe that finds an empty bucket, and no bucket with the key before it, shows that the key is absent. */
  lemma Absent(s: seq<Item>, hash: nat -> nat, m: map<nat, int>, key: nat, p: nat)
    requires 0 < |s| && Consistent(s, hash, m) && p < |s| && s[Bucket(hash(key), p, |s|)].key.None?
    requires forall q :: 0 <= q < p ==> !KeyAt(s, key, Bucket(hash(key), q, |s|))
    ensures key !in m
  {
    if key in m { var r := FoundBy(s, hash, m, key); }
  }

  lemma StillReachable(s: seq<Item>, t: seq<Item>, hash: nat -> nat, c: nat)
    requires |t| == |s| && c < |s| && s[c].key.Some? && t[c].key == s[c].key && Reachable(s, hash, c)
    requires forall b :: 0 <= b < |s| && s[b].key.Some? ==> t[b].key.Some?
    ensures Reachable(t, hash, c)
  {
    var p :| 0 <= p < |s| && Reaches(s, hash(s[c].key.value), p, c);
    assert Reaches(t, hash(t[c].key.value), p, c);
  }

  /** Storing a new key in the first empty bucket of its probe sequence. */
  lemma Stored(s: seq<Item>, t: seq<Item>, hash: nat -> nat, m: map<nat, int>, key: nat, value: int, p: nat)
    requires 0 < |s| && Consistent(s, hash, m) && p < |s| && key !in m
    requires var b := Bucket(hash(key), p, |s|);
             s[b].key.None? && AllTaken(s, hash(key), p) && t == s[b := Item(Some(key), value)]
    ensures Consistent(t, hash, m[key := value])
    ensures Occupied(t, |t|) == Occupied(s, |s|) + {Bucket(hash(key), p, |s|)}
  {
    var b, m' := Bucket(hash(key), p, |s|), m[key := value];
    forall c | 0 <= c < |t| ensures Holds(t, hash, m', c) {
      if c == b {
        assert Reaches(t, hash(key), p, b);
      } else if t[c].key.Some? {
        assert Holds(s, hash, m, c);
        StillReachable(s, t, hash, c);
      }
    }
    forall k | k in m' ensures exists c :: 0 <= c < |t| && KeyAt(t, k, c) {
      if k == key {
        assert KeyAt(t, key, b);
      } else {
        var c :| 0 <= c < |s| && KeyAt(s, k, c);
        assert KeyAt(t, k, c);
      }
    }
    forall k: nat, c: nat, e: nat | c < |t| && e < |t| && KeyAt(t, k, c) && KeyAt(t, k, e) ensures c == e {
      assert Holds(s, hash, m, c) && Holds(s, hash, m, e);
      if c != b && e != b { assert KeyAt(s, k, c) && KeyAt(s, k, e); }
    }
  }

  /** Changing the value of a key. */
  lemma Changed(s: seq<Item>, t: seq<Item>, hash: nat -> nat, m: map<nat, int>, b: nat, value: int, m': map<nat, int>)
    requires Consistent(s, hash, m) && b < |s| && s[b].key.Some? && t == s[b := s[b].(value := value)]
    requires m' == m[s[b].key.value := value]
    ensures Consistent(t, hash, m') && Occupied(t, |t|) == Occupied(s, |s|)
  {
    assert KeyAt(s, s[b].key.value, b) && Holds(s, hash, m, b);
    forall c | 0 <= c < |t| ensures Holds(t, hash, m', c) {
      assert Holds(s, hash, m, c);
      if t[c].key.Some? {
        StillReachable(s, t, hash, c);
        assert KeyAt(s, t[c].key.value, c);
      }
    }
    forall k | k in m' ensures exists c :: 0 <= c < |t| && KeyAt(t, k, c) {
      var c :| 0 <= c < |s| && KeyAt(s, k, c);
      assert KeyAt(t, k, c);
    }
    forall k: nat, c: nat, e: nat | c < |t| && e < |t| && KeyAt(t, k, c) && KeyAt(t, k, e) ensures c == e {
      assert KeyAt(s, k, c) && KeyAt(s, k, e);
    }
  }

  /** m is what the first i buckets hold of the contents of a table. */
  ghost predicate Carried(s: seq<Item>, i: nat, m: map<nat, int>, contents: map<nat, int>) {
    && i <= |s|
    && (forall key :: key in m <==> exists b :: 0 <= b < i && KeyAt(s, key, b))
    && (forall key :: key in m ==> key in contents && m[key] == contents[key])
  }

  lemma CarriedStep(s: seq<Item>, hash: nat -> nat, contents: map<nat, int>, i: nat, item: Item, m: map<nat, int>)
    requires Consistent(s, hash, contents) && i < |s| && Carried(s, i, m, contents) && item == s[i]
    ensures item.key.None? ==> Carried(s, i + 1, m, contents)
    ensures item.key.Some? ==> item.key.value !in m && Carried(s, i + 1, m[item.key.value := item.value], contents)
  {
    assert Holds(s, hash, contents, i);
    if item.key.Some? { assert KeyAt(s, item.key.value, i); }
  }

  lemma CarriedAll(s: seq<Item>, hash: nat -> nat, contents: map<nat, int>, m: map<nat, int>)
    requires Consistent(s, hash, contents) && Carried(s, |s|, m, contents)
    ensures m == contents
  {
  }

  lemma Doubled(length: nat, capacity: nat)
    requires length == 0 || (PowerOfTwo(length) && 32 <= length)
    requires capacity == if length == 0 then 32 else length * 2
    ensures PowerOfTwo(capacity) && 32 <= capacity && length - length / 4 < capacity - capacity / 4
  {
    assert PowerOfTwo(4) && PowerOfTwo(16) && PowerOfTwo(32);
  }

  method FirstBucket(h: nat, capacity: nat) returns (bucket: nat)
    requires 0 < capacity
    ensures bucket == Bucket(h, 0, capacity)
  {
    bucket := h % capacity;
  }

  method Advance(bucket: nat, probe: nat, capacity: nat, ghost h: nat) returns (next: nat)
    requires 0 < capacity && bucket == Bucket(h, probe, capacity)
    ensures next == Bucket(h, probe + 1, capacity)
  {
    NextBucket(h, probe, capacity);
    next := (bucket + probe + 1) % capacity;
  }

  class CompactHashTable {
    const hash: nat -> nat
    var items: array<Item>
    var count: nat
    ghost var contents: map<nat, int>

    ghost predicate Valid()
      reads this, items
    {
      && (items.Length == 0 || (PowerOfTwo(items.Length) && 32 <= items.Length))
      && count == |Occupied(items[..], items.Length)| && count <= items.Length - items.Length / 4
      && Consistent(items[..], hash, contents)
    }

    constructor (hash: nat -> nat)
      ensures Valid() && fresh(items) && contents == map[] && items.Length == 0 && this.hash == hash
    {
      this.hash := hash;
      items := new Item[0];
      count, contents := 0, map[];
      new;
      assert Occupied(items[..], 0) == {};
    }

    /** The probing loop shared by find and insert: the bucket that has the key or, if none has it, an empty one. */
    method Probe(key: nat) returns (bucket: nat, found: bool, ghost p: nat)
      requires Valid() && 0 < items.Length
      ensures bucket < items.Length && found == (key in contents)
      ensures found ==> KeyAt(items[..], key, bucket)
      ensures !found ==> p < items.Length && bucket == Bucket(hash(key), p, items.Length) && items[bucket].key.None?
                         && AllTaken(items[..], hash(key), p)
    {
      ghost var s := items[..];
      var hashmod := items.Length - 1;
      bucket := FirstBucket(hash(key), items.Length);
      var probe := 0;
      while probe <= hashmod
        invariant probe <= items.Length && bucket == Bucket(hash(key), probe, items.Length)
        invariant AllTaken(s, hash(key), probe)
        invariant forall q :: 0 <= q < probe ==> !KeyAt(s, key, Bucket(hash(key), q, items.Length))
      {
        if items[bucket].key == Some(key) {
          assert Holds(s, hash, contents, bucket);
          return bucket, true, 0;
        }
        if items[bucket].key.None? {
          Absent(s, hash, contents, key, probe);
          return bucket, false, probe;
        }
        bucket := Advance(bucket, probe, items.Length, hash(key));
        probe := probe + 1;
      }
      AllTakenIsFull(s, hash(key));
      assert false;
    }

    /** find */
    method Find(key: nat) returns (value: Option<int>)
      requires Valid()
      ensures value == if key in contents then Some(contents[key]) else None
    {
      if items.Length == 0 {
        NothingHeld(items[..], hash, contents, key);
        return None;
      }
      var bucket, found, p := Probe(key);
      if !found {
        return None;
      }
      assert Holds(items[..], hash, contents, bucket);
      value := Some(items[bucket].value);
    }

    /** insert, and the assignment through the pointer it returns */
    method Put(key: nat, value: int)
      requires Valid() && 0 < items.Length && count < items.Length - items.Length / 4
      modifies this`count, this`contents, items
      ensures Valid() && contents == old(contents)[key := value]
      ensures count == old(count) + if key in old(contents) then 0 else 1
    {
      ghost var s := items[..];
      var bucket, found, p := Probe(key);
      if found {
        items[bucket] := items[bucket].(value := value);
        assert items[..] == s[bucket := s[bucket].(value := value)];
        Changed(s, items[..], hash, contents, bucket, value, contents[key := value]);
      } else {
        items[bucket] := Item(Some(key), value);
        count := count + 1;
        assert items[..] == s[bucket := Item(Some(key), value)];
        Stored(s, items[..], hash, contents, key, value, p);
      }
      contents := contents[key := value];
    }

    /** The item of bucket i, if any, is put into another table. */
    method MoveItem(rt: CompactHashTable, i: nat)
      requires Consistent(items[..], hash, contents) && i < items.Length && rt != this && rt.items != items && rt.hash == hash
      requires rt.Valid() && 0 < rt.items.Length && rt.count < rt.items.Length - rt.items.Length / 4
      requires rt.count == |Occupied(items[..], i)| && Carried(items[..], i, rt.contents, contents)
      modifies rt`count, rt`contents, rt.items
      ensures rt.Valid() && old(rt.count) <= rt.count <= old(rt.count) + 1
      ensures rt.count == |Occupied(items[..], i + 1)| && Carried(items[..], i + 1, rt.contents, contents)
    {
      var item := items[i];
      OccupiedNext(items[..], i);
      CarriedStep(items[..], hash, contents, i, item, rt.contents);
      if item.key.Some? {
        rt.Put(item.key.value, item.value);
      }
    }

    /** rehash: all items move to a table of twice the capacity. */
    method Rehash()
      requires Valid()
      modifies this`items
      ensures Valid() && fresh(items) && items.Length == if old(items.Length) == 0 then 32 else 2 * old(items.Length)
    {
      var rt := new CompactHashTable(hash);
      var capacity := if items.Length == 0 then 32 else items.Length * 2;
      Doubled(items.Length, capacity);
      rt.Allocate(capacity);
      ghost var s := items[..];
      for i := 0 to items.Length
        invariant rt.Valid() && rt.items.Length == capacity && fresh(rt) && fresh(rt.items) && rt.hash == hash
        invariant items[..] == s && rt.count == |Occupied(s, i)| && rt.count <= i
        invariant Carried(s, i, rt.contents, contents)
      {
        MoveItem(rt, i);
      }
      CarriedAll(s, hash, contents, rt.contents);
      items := rt.items;
    }

    /** The zero-filled memory of a new table. */
    method Allocate(capacity: nat)
      requires Valid() && items.Length == 0 && PowerOfTwo(capacity) && 32 <= capacity
      modifies this`items
      ensures Valid() && fresh(items) && items.Length == capacity
    {
      items := new Item[capacity](_ => Item(None, 0));
      assert Occupied(items[..], capacity) == {};
    }

    /** reserve: afterwards at least sixteen insertions are possible. */
    method Reserve()
      requires Valid()
      modifies this`items
      ensures Valid() && count + 16 < items.Length - items.Length / 4
      ensures items == old(items) || fresh(items)
    {
      if count + 16 >= items.Length - items.Length / 4 {
        Rehash();
      }
    }
  }

  lemma NextBucket(h: nat, p: nat, capacity: nat)
    requires 0 < capacity
    ensures (Bucket(h, p, capacity) + p + 1) % capacity == Bucket(h, p + 1, capacity)
  {
    var x := h + Triangle(p);
    var q, r := x / capacity, x % capacity;
    assert x + p + 1 == capacity * q + (r + p + 1);
    ModPlus(r + p + 1, q, capacity);
  }

  lemma NothingHeld(s: seq<Item>, hash: nat -> nat, m: map<nat, int>, key: nat)
    requires |s| == 0 && Consistent(s, hash, m)
    ensures key !in m
  {
  }

  lemma OccupiedNext(s: seq<Item>, i: nat)
    requires i < |s|
    ensures |Occupied(s, i + 1)| == |Occupied(s, i)| + if s[i].key.Some? then 1 else 0
  {
    assert Occupied(s, i + 1) == if s[i].key.Some? then Occupied(s, i) + {i} else Occupied(s, i);
  }
}
