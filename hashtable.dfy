/*
 * hashtable.c: a chained hash table keyed by byte strings, hashed with
 * MurmurHash3 (seed 42) into key_num buckets.  The table grows to twice
 * its buckets when adding finds key_count / key_num >= key_ratio, and
 * shrinks to half when removing finds key_num / key_count >= key_ratio.
 *
 * Each bucket's linked chain is held as a sequence (head first) in the
 * array `storeHouse`; the methods walk and relink it as the C code does.
 * What they do to one chain is stated by the functions of module Chains.
 */
module HashTable {
  import opened Options
  import opened Chains
  import Murmur

  /** hash_table_mode_t: which caller buffers the table takes copies of. */
  datatype Mode = Copy | ValueRef | AllRef

  /** Whether a node holds its own copy of the key and of the value. */
  datatype Owned = Owned(key: bool, value: bool)

  /** The buffers hash_table_add duplicates for a new node in each mode. */
  function CopiedOnAdd(mode: Mode): Owned
  {
    match mode
    case Copy => Owned(true, true)
    case ValueRef => Owned(true, false)
    case AllRef => Owned(false, false)
  }

  /** The buffers hash_table_element_delete frees along with a node in each mode. */
  function FreedOnDelete(mode: Mode): Owned
  {
    if mode == Copy then Owned(true, true)
    else if mode == ValueRef then Owned(true, false)
    else Owned(false, false)
  }

  /** A node frees exactly what it copied, and a reference-only table copies nothing, which is
      why resizing can re-add the existing nodes' buffers under AllRef and restore the mode. */
  lemma OwnershipAgrees(mode: Mode)
    ensures FreedOnDelete(mode) == CopiedOnAdd(mode)
    ensures CopiedOnAdd(AllRef) == Owned(false, false)
  {
  }

  /** a / b >= q gives a >= q * b (the ratio tests of add and remove). */
  lemma RatioBound(a: nat, b: nat, q: nat)
    requires b > 0 && a / b >= q
    ensures a >= q * b
  {
    assert a == b * (a / b) + a % b;
    assert b * (a / b) >= b * q;
  }

  /** a / b < q gives a < q * b. */
  lemma RatioBelow(a: nat, b: nat, q: nat)
    requires b > 0 && a / b < q
    ensures a < q * b
  {
    assert a == b * (a / b) + a % b;
    assert b * (a / b) <= b * (q - 1);
  }

  /** The chain walk of hash_table_remove (hashtable.c:238-265): `temp` (t) moves to the first
      node carrying key, or off the end when none does, and `prev` (p) trails it by one node,
      except that it starts on the head together with `temp`. */
  method WalkToKey(chain: Chain, key: Bytes) returns (t: nat, p: nat)
    requires chain != []
    ensures t <= |chain|
    ensures t == |chain| <==> !Carries(chain, key)
    ensures t < |chain| ==> FindFrom(chain, 0, key) == Some(t) && p == (if t == 0 then 0 else t - 1)
  {
    t, p := 0, 0;
    while t < |chain|
      invariant 0 <= t <= |chain|
      invariant (t == 0 && p == 0) || (t > 0 && p == t - 1)
      invariant forall j :: 0 <= j < t ==> chain[j].key != key
    {
      while t < |chain| && |chain[t].key| != |key|
        invariant 0 <= t <= |chain|
        invariant (t == 0 && p == 0) || (t > 0 && p == t - 1)
        invariant forall j :: 0 <= j < t ==> chain[j].key != key
      {
        p := t;
        t := t + 1;
      }
      if t < |chain| {
        if chain[t].key == key {
          FindFromIs(chain, 0, key, t);
          return;
        }
        p := t;
        t := t + 1;
      }
    }
  }

  /** a < q * b gives a / b < q. */
  lemma RatioUnder(a: nat, b: nat, q: nat)
    requires b > 0 && a < q * b
    ensures a / b < q
  {
    if a / b >= q {
      RatioBound(a, b, q);
    }
  }

  /** key_ratio: the load bound hash_table_new sets. */
  const KeyRatio: nat := 4

  /** A table's buckets and key_count, as values. */
  datatype Contents = Contents(chains: seq<Chain>, count: nat)

  /** The contents once hash_table_add's growth test has run: rehashed into twice as many
      buckets, with key_count reset to the nodes re-added, when key_count / key_num has reached
      the ratio and there are nodes to move. */
  function Grow(digest: Digest, c: Contents): (r: Contents)
    requires |c.chains| > 0
    ensures |r.chains| > 0
  {
    if c.count / |c.chains| >= KeyRatio && |Flatten(c.chains)| > 0 then
      var g := Rehash(digest, Flatten(c.chains), 2 * |c.chains|);
      Contents(g, |Flatten(g)|)
    else c
  }

  /** The contents after hash_table_add of e: grown if loaded, then e put into the bucket of
      its key, with key_count up by one unless a node was replaced. */
  function AddTo(digest: Digest, c: Contents, e: Element): (r: Contents)
    requires |c.chains| > 0
    ensures |r.chains| > 0
  {
    var g := Grow(digest, c);
    Contents(InsertAt(digest, g.chains, e),
             g.count + if Replaces(g.chains[Bucket(digest, e.key, |g.chains|)], e.key) then 0 else 1)
  }

  /** Adding keeps every node in the bucket of its key, growing included, and the keys the
      table holds become those it held plus the element's key. */
  lemma AddToKeys(digest: Digest, c: Contents, e: Element)
    requires |c.chains| > 0 && Placed(digest, c.chains)
    ensures Placed(digest, AddTo(digest, c, e).chains)
    ensures Keys(Flatten(AddTo(digest, c, e).chains)) == Keys(Flatten(c.chains)) + {e.key}
  {
    var g := Grow(digest, c);
    if g != c {
      RehashPlaced(digest, Flatten(c.chains), 2 * |c.chains|);
      RehashKeys(digest, Flatten(c.chains), 2 * |c.chains|);
    }
    InsertFacts(digest, g.chains, e);
    InsertAtKeys(digest, g.chains, e);
  }

  class Table {
    var mode: Mode
    /** key_num: the number of buckets. */
    var keyNum: nat
    /** key_count: incremented for every node linked in, decremented for every removal. */
    var keyCount: nat
    /** key_ratio: the load bound that triggers growing and shrinking. */
    const keyRatio: nat
    /** store_house: one chain per bucket. */
    var storeHouse: array<Chain>
    /** The 32-bit key hash behind HASH: MurmurHash3_x86_32 with seed 42 (set by the constructor). */
    const digest: Digest

    ghost function Chains(): seq<Chain>
      reads this, storeHouse
    {
      storeHouse[..]
    }

    /** The number of nodes in the table. */
    ghost function Total(): nat
      reads this, storeHouse
    {
      |Flatten(storeHouse[..])|
    }

    /** Every node sits in the bucket of its key; key_count never falls below the number of
        nodes (remove can lose two nodes for one decrement); and the load stays within the
        ratio, so re-adding the nodes during a resize never triggers a nested resize. */
    ghost predicate Valid()
      reads this, storeHouse
    {
      keyRatio == KeyRatio && keyNum > 0 && storeHouse.Length == keyNum
      && Placed(digest, storeHouse[..])
      && |Flatten(storeHouse[..])| <= keyCount
      && |Flatten(storeHouse[..])| <= keyRatio * keyNum
    }

    /** What a lookup of key finds: the first node of its bucket that carries it. */
    ghost function Get(key: Bytes): Option<Bytes>
      requires Valid()
      reads this, storeHouse
    {
      ChainLookup(storeHouse[Bucket(digest, key, keyNum)], key)
    }

    /** hash_table_new: 128 empty buckets, ratio 4, no keys. */
    constructor (mode: Mode)
      ensures Valid() && fresh(storeHouse)
      ensures this.mode == mode && keyNum == 128 && keyCount == 0
      ensures Chains() == EmptyChains(128)
      ensures digest == Murmur.KeyHash
    {
      digest := Murmur.KeyHash;
      this.mode := mode;
      keyNum := 128;
      keyRatio := KeyRatio;
      keyCount := 0;
      storeHouse := new Chain[128](_ => []);
      new;
      assert storeHouse[..] == EmptyChains(128);
      FlattenEmpty(128);
    }

    /** The buckets once hash_table_add's growth test has run: rehashed into twice as many
        buckets when the load has reached the ratio and there are nodes to move. */
    ghost function Grown(): seq<Chain>
      requires Valid()
      reads this, storeHouse
    {
      Grow(digest, Contents(Chains(), keyCount)).chains
    }

    /** key_count once hash_table_add's growth test has run. */
    ghost function GrownCount(): nat
      requires Valid()
      reads this, storeHouse
    {
      Grow(digest, Contents(Chains(), keyCount)).count
    }

    /** hash_table_add.  If the load has reached the ratio the table first grows to twice its
        buckets (the outcome of the resize is not checked).  Then the node goes into the bucket
        of its key as ChainAdd says: replacing a later node with the same key, or appended. */
    method Add(key: Bytes, value: Bytes)
      requires Valid()
      modifies this, storeHouse
      ensures Valid() && mode == old(mode)
      ensures storeHouse == old(storeHouse) || fresh(storeHouse)
      ensures keyNum == |old(Grown())|
      ensures Contents(Chains(), keyCount) == AddTo(digest, old(Contents(Chains(), keyCount)), Element(key, value))
      ensures Chains() == InsertAt(digest, old(Grown()), Element(key, value))
      ensures keyCount == old(GrownCount())
        + (if Replaces(old(Grown())[Bucket(digest, key, |old(Grown())|)], key) then 0 else 1)
      ensures old(keyCount / keyNum < keyRatio) ==>
        storeHouse == old(storeHouse) && keyNum == old(keyNum)
        && Chains() == InsertAt(digest, old(Chains()), Element(key, value))
        && keyCount - Total() == old(keyCount - Total())
      decreases Total(), 3
    {
      GrowIfLoaded();
      var h := Bucket(digest, key, keyNum);
      var e := Element(key, value);
      ghost var grown := storeHouse[..];
      InsertFacts(digest, grown, e);
      LinkNode(h, e);
      assert storeHouse[..] == InsertAt(digest, grown, e);
    }

    /** The growth test opening hash_table_add (hashtable.c:109-114): when key_count / key_num
        has reached the ratio, resize to twice the buckets, ignoring the outcome.  Afterwards
        there is room for one more node within the ratio. */
    method GrowIfLoaded()
      requires Valid()
      modifies this
      ensures Valid() && mode == old(mode) && Chains() == old(Grown()) && keyCount == old(GrownCount())
      ensures keyNum == |old(Grown())| && Total() < keyRatio * keyNum
      ensures storeHouse == old(storeHouse) || fresh(storeHouse)
      ensures old(keyCount / keyNum < keyRatio) ==>
        storeHouse == old(storeHouse) && keyNum == old(keyNum) && keyCount == old(keyCount)
      decreases Total(), 2
    {
      if keyCount / keyNum >= keyRatio {
        RatioBound(keyCount, keyNum, keyRatio);
        ghost var es := Flatten(Chains());
        assert Grown() == (if es == [] then Chains() else Rehash(digest, es, 2 * keyNum));
        var _ := Resize(keyNum * 2);
      } else {
        RatioBelow(keyCount, keyNum, keyRatio);
        assert Grown() == Chains() && GrownCount() == keyCount;
      }
    }

    /** The chain walk of hash_table_add (hashtable.c:174-210): the head is linked in when the
        bucket is empty; otherwise the walk compares each node after the head, replaces the
        first one with the same key, and appends the node when none has it. */
    method LinkNode(h: nat, e: Element)
      requires h < storeHouse.Length && h == Bucket(digest, e.key, storeHouse.Length)
      modifies this`keyCount, storeHouse
      ensures storeHouse[h] == ChainAdd(old(storeHouse[h]), e)
      ensures forall j :: 0 <= j < storeHouse.Length && j != h ==> storeHouse[j] == old(storeHouse[j])
      ensures keyCount == old(keyCount) + (if Replaces(old(storeHouse[h]), e.key) then 0 else 1)
    {
      var chain := storeHouse[h];
      if chain == [] {
        storeHouse[h] := [e];
        keyCount := keyCount + 1;
        return;
      }
      // t is the node `temp`; its successor t + 1 is the one compared
      var t := 0;
      while t + 1 < |chain|
        invariant 0 <= t < |chain|
        invariant forall j :: 1 <= j <= t ==> chain[j].key != e.key
      {
        while t + 1 < |chain| && |chain[t + 1].key| != |e.key|
          invariant 0 <= t < |chain|
          invariant forall j :: 1 <= j <= t ==> chain[j].key != e.key
        {
          t := t + 1;
        }
        if t + 1 < |chain| {
          if chain[t + 1].key == e.key {
            FindFromIs(chain, 1, e.key, t + 1);
            // the old node is unlinked and deleted; key_count is unchanged
            storeHouse[h] := chain[t + 1 := e];
            return;
          } else {
            t := t + 1;
          }
        }
      }
      storeHouse[h] := chain + [e];
      keyCount := keyCount + 1;
    }

    /** hash_table_resize.  With no nodes it reports -1 and changes nothing.  Otherwise it lists
        the nodes (hash_table_get_elements), starts from len empty buckets and re-adds them from
        the last listed to the first with the table switched to AllRef, then restores the mode. */
    method Resize(len: nat) returns (status: int)
      requires Valid() && len > 0 && Total() <= keyRatio * len
      modifies this
      ensures Valid() && mode == old(mode)
      ensures old(Total()) == 0 ==>
        status == -1 && storeHouse == old(storeHouse) && keyNum == old(keyNum) && keyCount == old(keyCount)
      ensures old(Total()) > 0 ==>
        status == 0 && fresh(storeHouse) && keyNum == len
        && Chains() == Rehash(digest, old(Flatten(Chains())), len) && keyCount == Total()
        && Total() <= old(Total())
      decreases Total(), 1
    {
      var elements, count := GetElements();
      if count == 0 {
        return -1;
      }
      storeHouse := new Chain[len](_ => []);
      keyNum := len;
      var saved := mode;
      mode := AllRef;
      keyCount := 0;
      assert storeHouse[..] == EmptyChains(len);
      FlattenEmpty(len);
      Refill(elements, count);
      RehashPlaced(digest, elements[..count], len);
      mode := saved;
      return 0;
    }

    /** The re-adding loop of hash_table_resize (hashtable.c:600-605): into the empty buckets,
        add elements[count - 1] down to elements[0] with hash_table_add.  The load stays
        under the ratio all along, so no add grows the table again. */
    method Refill(elements: array<Element>, n: nat)
      requires Valid() && Chains() == EmptyChains(keyNum) && keyCount == 0
      requires n <= elements.Length && n <= keyRatio * keyNum
      modifies this, storeHouse
      ensures Valid() && mode == old(mode) && storeHouse == old(storeHouse) && keyNum == old(keyNum)
      ensures Chains() == Rehash(digest, elements[..n], keyNum) && keyCount == Total()
      decreases n, 0
    {
      ghost var es := elements[..n];
      var count := n;
      assert es[n..] == [];
      while count > 0
        invariant 0 <= count <= n
        invariant storeHouse == old(storeHouse) && keyNum == old(keyNum) && mode == old(mode)
        invariant Valid() && Chains() == Rehash(digest, es[count..], keyNum) && keyCount == Total()
        invariant Total() <= n - count
      {
        count := count - 1;
        var elem := elements[count];
        RehashStep(digest, es, count, keyNum);
        RatioUnder(keyCount, keyNum, keyRatio);
        Add(elem.key, elem.value);
      }
    }

    /** The buckets once hash_table_remove's shrink test has run: rehashed into half as many
        buckets when key_num / key_count has reached the ratio and there are nodes to move. */
    ghost function Shrunk(): seq<Chain>
      requires Valid() && keyCount > 0
      reads this, storeHouse
    {
      if keyNum / keyCount >= keyRatio && Total() > 0 then Rehash(digest, Flatten(Chains()), keyNum / 2)
      else Chains()
    }

    /** key_count once hash_table_remove's shrink test has run. */
    ghost function ShrunkCount(): nat
      requires Valid() && keyCount > 0
      reads this, storeHouse
    {
      if keyNum / keyCount >= keyRatio && Total() > 0 then |Flatten(Shrunk())| else keyCount
    }

    /** hash_table_remove.  The caller must leave at least one counted key: the shrink test
        divides by key_count.  If key_num / key_count has reached the ratio the table first
        shrinks to half its buckets.  Then the first node carrying key is unlinked as
        ChainRemove says (0), or nothing changes when no node carries it (-1). */
    method Remove(key: Bytes) returns (status: int)
      requires Valid() && keyCount > 0
      modifies this, storeHouse
      ensures Valid() && mode == old(mode)
      ensures keyNum == |old(Shrunk())| > 0
      ensures Chains() == RemoveAt(digest, old(Shrunk()), key)
      ensures var found := Carries(old(Shrunk())[Bucket(digest, key, |old(Shrunk())|)], key);
        status == (if found then 0 else -1)
        && keyCount == old(ShrunkCount()) - (if found then 1 else 0)
    {
      ShrinkIfSparse();
      var h := Bucket(digest, key, keyNum);
      ghost var pre := storeHouse[..];
      RemoveFacts(digest, pre, key);
      FlattenUpdate(pre, h, pre[h]);
      status := UnlinkNode(h, key);
      assert storeHouse[..] == RemoveAt(digest, pre, key);
    }

    /** The shrink test opening hash_table_remove (hashtable.c:225-230): when key_num / key_count
        has reached the ratio, resize to half the buckets, ignoring the outcome. */
    method ShrinkIfSparse()
      requires Valid() && keyCount > 0
      modifies this
      ensures Valid() && mode == old(mode) && Chains() == old(Shrunk()) && keyCount == old(ShrunkCount())
      ensures keyNum == |old(Shrunk())| > 0
      ensures storeHouse == old(storeHouse) || fresh(storeHouse)
    {
      if keyNum / keyCount >= keyRatio {
        RatioBound(keyNum, keyCount, keyRatio);
        var _ := Resize(keyNum / 2);
      }
    }

    /** The end of hash_table_remove (hashtable.c:232-268).  `prev` starts on the head
        like `temp`, so the test "prev is the head node" also holds when the match is the
        second node, and the bucket is then relinked past the match, losing the head. */
    method UnlinkNode(h: nat, key: Bytes) returns (status: int)
      requires h < storeHouse.Length && |storeHouse[h]| <= keyCount
      modifies this`keyCount, storeHouse
      ensures storeHouse[h] == ChainRemove(old(storeHouse[h]), key)
      ensures forall j :: 0 <= j < storeHouse.Length && j != h ==> storeHouse[j] == old(storeHouse[j])
      ensures status == (if Carries(old(storeHouse[h]), key) then 0 else -1)
      ensures keyCount == old(keyCount) - (if Carries(old(storeHouse[h]), key) then 1 else 0)
    {
      var chain := storeHouse[h];
      if chain == [] {
        return -1;
      }
      var t, p := WalkToKey(chain, key);
      if t == |chain| {
        return -1;
      }
      assert ChainRemove(chain, key) == if p == 0 then chain[t + 1..] else chain[..p + 1] + chain[t + 1..];
      if p == 0 {
        // prev is the head node: the bucket is relinked past temp
        storeHouse[h] := chain[t + 1..];
      } else {
        storeHouse[h] := chain[..p + 1] + chain[t + 1..];
      }
      keyCount := keyCount - 1;
      return 0;
    }

    /** hash_table_lookup: the value of the first node of key's bucket that carries key.
        It is absent exactly when no node anywhere in the table carries key. */
    method Lookup(key: Bytes) returns (r: Option<Bytes>)
      requires Valid()
      ensures r == Get(key)
      ensures r.None? <==>
        forall i, j :: 0 <= i < storeHouse.Length && 0 <= j < |storeHouse[i]| ==> storeHouse[i][j].key != key
      ensures r.Some? ==> exists i, j :: 0 <= i < storeHouse.Length && 0 <= j < |storeHouse[i]|
                                         && storeHouse[i][j] == Element(key, r.value)
    {
      var h := Bucket(digest, key, keyNum);
      var chain := storeHouse[h];
      LookupFirstMatch(chain, key);
      if chain == [] {
        return None;
      }
      var t := 0;
      while t < |chain|
        invariant 0 <= t <= |chain|
        invariant forall j :: 0 <= j < t ==> chain[j].key != key
      {
        while t < |chain| && |chain[t].key| != |key|
          invariant 0 <= t <= |chain|
          invariant forall j :: 0 <= j < t ==> chain[j].key != key
        {
          t := t + 1;
        }
        if t < |chain| {
          if chain[t].key == key {
            FindFromIs(chain, 0, key, t);
            return Some(chain[t].value);
          } else {
            t := t + 1;
          }
        }
      }
      return None;
    }

    /** hash_table_has_key: 1 exactly when lookup would find a value, which is exactly when
        some node of the table carries key. */
    method HasKey(key: Bytes) returns (found: int)
      requires Valid()
      ensures found == 1 <==> Get(key).Some?
      ensures found == 0 || found == 1
      ensures found == 1 <==>
        exists i, j :: 0 <= i < storeHouse.Length && 0 <= j < |storeHouse[i]| && storeHouse[i][j].key == key
    {
      var h := Bucket(digest, key, keyNum);
      var chain := storeHouse[h];
      LookupFirstMatch(chain, key);
      if chain == [] {
        return 0;
      }
      var t := 0;
      while t < |chain|
        invariant 0 <= t <= |chain|
        invariant forall j :: 0 <= j < t ==> chain[j].key != key
      {
        while t < |chain| && |chain[t].key| != |key|
          invariant 0 <= t <= |chain|
          invariant forall j :: 0 <= j < t ==> chain[j].key != key
        {
          t := t + 1;
        }
        if t < |chain| {
          if chain[t].key == key {
            assert chain[t].key == key;
            return 1;
          }
          t := t + 1;
        }
      }
      return 0;
    }

    /** hash_table_get_elements: a fresh array of key_count slots whose first `count` entries
        are all the nodes, bucket by bucket, head to tail. */
    method GetElements() returns (elements: array<Element>, count: nat)
      requires Valid()
      ensures elements.Length == keyCount && count == Total()
      ensures elements[..count] == Flatten(Chains())
    {
      elements := new Element[keyCount](_ => Element([], []));
      ghost var all := storeHouse[..];
      count := 0;
      var i := 0;
      while i < storeHouse.Length
        invariant 0 <= i <= storeHouse.Length
        invariant count == |Flatten(all[..i])| <= |Flatten(all)| <= elements.Length
        invariant elements[..count] == Flatten(all[..i])
      {
        var chain := storeHouse[i];
        FlattenStep(all, i);
        count := CopyChain(elements, count, chain);
        i := i + 1;
      }
      assert all[..i] == all;
    }

    /** hash_table_get_keys: counts the nodes into an array it allocates; the array itself never
        reaches the caller (the `keys` parameter is overwritten locally), only the count does. */
    method GetKeys() returns (count: nat)
      requires Valid()
      ensures count == Total()
    {
      var keys := new Bytes[keyCount](_ => []);
      ghost var all := storeHouse[..];
      count := 0;
      var i := 0;
      while i < storeHouse.Length
        invariant 0 <= i <= storeHouse.Length
        invariant count == |Flatten(all[..i])| && count <= keys.Length
      {
        var chain := storeHouse[i];
        FlattenSplit(all, i + 1);
        assert all[..i + 1][..i] == all[..i];
        var t := 0;
        while t < |chain|
          invariant 0 <= t <= |chain|
          invariant count == |Flatten(all[..i])| + t
        {
          keys[count] := chain[t].key;
          count := count + 1;
          t := t + 1;
        }
        i := i + 1;
      }
      assert all[..i] == all;
    }

    /** One bucket of hash_table_iterate: its chain walked head to tail, every node on which
        the callback answers true unlinked, and key_count decremented for each. */
    method FilterBucket(i: nat, fct: (Bytes, Bytes) -> bool) returns (ghost seen: Chain)
      requires i < storeHouse.Length && |storeHouse[i]| <= keyCount
      modifies this`keyCount, storeHouse
      ensures seen == old(storeHouse[i])
      ensures storeHouse[i] == Keep(seen, fct)
      ensures forall j :: 0 <= j < storeHouse.Length && j != i ==> storeHouse[j] == old(storeHouse[j])
      ensures keyCount == old(keyCount) - Selected(seen, fct)
    {
      var chain := storeHouse[i];
      seen := chain;
      var kept: Chain := [];
      var t := 0;
      while t < |chain|
        invariant 0 <= t <= |chain|
        invariant kept == Keep(chain[..t], fct)
        invariant keyCount == old(keyCount) - Selected(chain[..t], fct)
        modifies this`keyCount
      {
        var e := chain[t];
        assert chain[..t + 1] == chain[..t] + [e];
        SelectedBound(chain[..t + 1], fct);
        if fct(e.value, e.key) {
          // the node is unlinked and deleted
          keyCount := keyCount - 1;
        } else {
          kept := kept + [e];
        }
        t := t + 1;
      }
      assert chain[..t] == chain;
      storeHouse[i] := kept;
    }

    /** The bucket loop of hash_table_iterate (hashtable.c:628-652): every bucket in turn goes
        through FilterBucket.  The nodes are visited bucket by bucket, in chain order. */
    method FilterBuckets(fct: (Bytes, Bytes) -> bool) returns (ghost visited: seq<Element>)
      requires |Flatten(storeHouse[..])| <= keyCount
      modifies this`keyCount, storeHouse
      ensures storeHouse[..] == KeepAll(old(storeHouse[..]), fct)
      ensures visited == Flatten(old(storeHouse[..]))
      ensures keyCount == old(keyCount) - Selected(visited, fct)
    {
      ghost var start := storeHouse[..];
      visited := [];
      var i := 0;
      while i < storeHouse.Length
        invariant 0 <= i <= storeHouse.Length == |start|
        invariant forall j :: 0 <= j < i ==> storeHouse[j] == Keep(start[j], fct)
        invariant forall j :: i <= j < |start| ==> storeHouse[j] == start[j]
        invariant visited == Flatten(start[..i]) && |visited| <= |Flatten(start)|
        invariant keyCount == old(keyCount) - Selected(visited, fct)
      {
        FlattenStep(start, i);
        SelectedBound(visited, fct);
        ghost var seen := FilterBucket(i, fct);
        SelectedConcat(visited, seen, fct);
        visited := visited + seen;
        i := i + 1;
      }
      assert storeHouse[..] == KeepAll(start, fct);
      assert start[..i] == start;
    }

    /** hash_table_iterate: calls fct on every node once, bucket by bucket and head to tail,
        and unlinks (and decrements key_count for) each node on which it answers true. */
    method Iterate(fct: (Bytes, Bytes) -> bool) returns (status: int, ghost visited: seq<Element>)
      requires Valid()
      modifies this, storeHouse
      ensures Valid() && status == 0
      ensures storeHouse == old(storeHouse) && keyNum == old(keyNum) && mode == old(mode)
      ensures Chains() == KeepAll(old(Chains()), fct)
      ensures keyCount == old(keyCount) - Selected(old(Flatten(Chains())), fct)
      ensures visited == old(Flatten(Chains()))
    {
      ghost var start := storeHouse[..];
      visited := FilterBuckets(fct);
      KeepAllPlaced(digest, start, fct);
      FilterDone(start, fct);
      return 0, visited;
    }
  }

  /** The inner loop of hash_table_get_elements: the nodes of one chain, in chain order, go
      into elements from position count on. */
  method CopyChain(elements: array<Element>, count: nat, chain: Chain) returns (next: nat)
    requires count + |chain| <= elements.Length
    modifies elements
    ensures next == count + |chain|
    ensures elements[..next] == old(elements[..count]) + chain
  {
    next := count;
    var t := 0;
    while t < |chain|
      invariant 0 <= t <= |chain| && next == count + t
      invariant elements[..next] == old(elements[..count]) + chain[..t]
    {
      elements[next] := chain[t];
      assert chain[..t + 1] == chain[..t] + [chain[t]];
      next := next + 1;
      t := t + 1;
    }
    assert chain[..t] == chain;
  }

  /** Adding the same key twice to a fresh table: the head is never compared, so a second
      node is linked, key_count becomes 2 and lookup still returns the first value. */
  method ReAddKeepsFirstValue(key: Bytes, v1: Bytes, v2: Bytes) returns (count: nat, found: Option<Bytes>)
    ensures count == 2 && found == Some(v1)
  {
    var e1, e2 := Element(key, v1), Element(key, v2);
    var t := new Table(Copy);
    ghost var h := Bucket(t.digest, key, 128);
    assert t.keyCount / t.keyNum == 0 < t.keyRatio;
    assert t.Grown() == t.Chains() && t.GrownCount() == 0;
    t.Add(key, v1);
    assert t.storeHouse[h] == ChainAdd([], e1) == [e1];
    assert t.keyCount == 1 && t.keyNum == 128 && t.keyCount / t.keyNum == 0 < t.keyRatio;
    assert t.Grown() == t.Chains() && t.GrownCount() == 1;
    t.Add(key, v2);
    HeadDuplicate(key, v1, v2);
    assert t.storeHouse[h] == [e1, e2];
    count := t.keyCount;
    found := t.Lookup(key);
  }

}
