/*
 * The value-level view of hashtable.c's buckets.  A bucket's linked chain
 * is a sequence of elements, head first; the bucket array is a sequence of
 * chains.  The functions below state what the table operations do to one
 * chain, exactly as the C code does it, and the lemmas state what that
 * means for the keys and values a caller can observe.
 */
module Chains {
  import opened Options

  type Bytes = seq<bv8>

  /** A chain node: its key and value bytes (key_len and value_len are their lengths). */
  datatype Element = Element(key: Bytes, value: Bytes)

  type Chain = seq<Element>

  // ---------------------------------------------------------------------------
  // Searching a chain

  /** The first position at or after `from` whose key has the same length and the same
      bytes as `key` (the key_len test followed by memcmp), if there is one. */
  function FindFrom(chain: Chain, from: nat, key: Bytes): (r: Option<nat>)
    ensures r.Some? ==> from <= r.value < |chain| && chain[r.value].key == key
    ensures r.Some? ==> forall j :: from <= j < r.value ==> chain[j].key != key
    ensures r.None? <==> forall j :: from <= j < |chain| ==> chain[j].key != key
    decreases |chain| - from
  {
    if from >= |chain| then None
    else if chain[from].key == key then Some(from)
    else FindFrom(chain, from + 1, key)
  }

  /** FindFrom finds the first match: naming a matching position with no match before it
      determines the result. */
  lemma FindFromIs(chain: Chain, from: nat, key: Bytes, j: nat)
    requires from <= j < |chain| && chain[j].key == key
    requires forall i :: from <= i < j ==> chain[i].key != key
    ensures FindFrom(chain, from, key) == Some(j)
  {
  }

  /** What hash_table_lookup returns for a key whose bucket holds this chain. */
  function ChainLookup(chain: Chain, key: Bytes): Option<Bytes>
  {
    match FindFrom(chain, 0, key)
    case Some(j) => Some(chain[j].value)
    case None => None
  }

  predicate Carries(chain: Chain, key: Bytes)
  {
    exists j :: 0 <= j < |chain| && chain[j].key == key
  }

  /** Lookup finds a value exactly when some element carries the key, and the value
      it finds is that of the first such element. */
  lemma {:induction false} LookupFirstMatch(chain: Chain, key: Bytes)
    ensures ChainLookup(chain, key).Some? <==> Carries(chain, key)
    ensures ChainLookup(chain, key).Some? ==>
      exists j :: 0 <= j < |chain| && chain[j] == Element(key, ChainLookup(chain, key).value)
                  && forall i :: 0 <= i < j ==> chain[i].key != key
  {
    match FindFrom(chain, 0, key)
    case Some(j) =>
      assert chain[j] == Element(key, chain[j].value);
    case None =>
  }

  // ---------------------------------------------------------------------------
  // Adding to a chain (hashtable.c:174-210, as written)

  /** The chain after hash_table_add has put e into it.  An empty bucket gets e as its head.
      Otherwise only the elements AFTER the head are compared with e's key: the first of them
      that matches is replaced by e in place; if none matches, e is appended at the tail. */
  function ChainAdd(chain: Chain, e: Element): Chain
  {
    if chain == [] then [e]
    else match FindFrom(chain, 1, e.key)
      case Some(j) => chain[j := e]
      case None => chain + [e]
  }

  /** Whether ChainAdd replaced an element (key_count unchanged) rather than adding one. */
  predicate Replaces(chain: Chain, key: Bytes)
  {
    chain != [] && FindFrom(chain, 1, key).Some?
  }

  /** Adding either keeps the length (a replacement) or grows it by one. */
  lemma AddLength(chain: Chain, e: Element)
    ensures |ChainAdd(chain, e)| == |chain| + (if Replaces(chain, e.key) then 0 else 1)
  {
  }

  /** After adding (k, v), looking up k finds v, unless the head already carried k: the head
      is never compared, so the old head value stays the one found. */
  lemma {:induction false} LookupAfterAdd(chain: Chain, k: Bytes, v: Bytes)
    ensures ChainLookup(ChainAdd(chain, Element(k, v)), k) ==
      if chain != [] && chain[0].key == k then Some(chain[0].value) else Some(v)
  {
    var c' := ChainAdd(chain, Element(k, v));
    if chain == [] {
      assert FindFrom(c', 0, k) == Some(0);
    } else if chain[0].key == k {
      assert c'[0] == chain[0];
      assert FindFrom(c', 0, k) == Some(0);
    } else {
      match FindFrom(chain, 1, k)
      case Some(j) =>
        assert forall i :: 0 <= i < j ==> c'[i] == chain[i];
        FindFromIs(c', 0, k, j);
      case None =>
        assert forall i :: 0 <= i < |chain| ==> c'[i] == chain[i];
        FindFromIs(c', 0, k, |chain|);
    }
  }

  /** Adding under one key does not change what another key finds. */
  lemma {:induction false} LookupOtherAfterAdd(chain: Chain, e: Element, k: Bytes)
    requires k != e.key
    ensures ChainLookup(ChainAdd(chain, e), k) == ChainLookup(chain, k)
  {
    var c' := ChainAdd(chain, e);
    assert forall i :: 0 <= i < |c'| && c'[i].key == k ==> i < |chain| && c'[i] == chain[i];
    assert forall i :: 0 <= i < |chain| && chain[i].key == k ==> c'[i] == chain[i];
    match FindFrom(chain, 0, k)
    case Some(j) =>
      assert FindFrom(c', 0, k) == Some(j);
    case None =>
      assert FindFrom(c', 0, k).None?;
  }

  /** Re-adding the key of a one-element bucket appends a second node with the same key
      instead of replacing the value, and lookup keeps returning the old value. */
  lemma HeadDuplicate(k: Bytes, v1: Bytes, v2: Bytes)
    ensures ChainAdd([Element(k, v1)], Element(k, v2)) == [Element(k, v1), Element(k, v2)]
    ensures ChainLookup(ChainAdd([Element(k, v1)], Element(k, v2)), k) == Some(v1)
  {
    LookupAfterAdd([Element(k, v1)], k, v2);
  }

  /** The evidently intended insertion: compare every node, the head included. */
  function ChainAddIntended(chain: Chain, e: Element): Chain
  {
    match FindFrom(chain, 0, e.key)
    case Some(j) => chain[j := e]
    case None => chain + [e]
  }

  predicate DistinctKeys(es: seq<Element>)
  {
    forall i, j :: 0 <= i < j < |es| ==> es[i].key != es[j].key
  }

  /** With the head compared too, adding (k, v) always makes lookup(k) return v, keeps the
      keys of the chain distinct, and grows the chain only when k was absent. */
  lemma {:induction false} IntendedAddCorrect(chain: Chain, k: Bytes, v: Bytes)
    requires DistinctKeys(chain)
    ensures ChainLookup(ChainAddIntended(chain, Element(k, v)), k) == Some(v)
    ensures DistinctKeys(ChainAddIntended(chain, Element(k, v)))
    ensures |ChainAddIntended(chain, Element(k, v))| == |chain| + (if Carries(chain, k) then 0 else 1)
  {
    var c' := ChainAddIntended(chain, Element(k, v));
    match FindFrom(chain, 0, k)
    case Some(j) =>
      assert forall i :: 0 <= i < j ==> c'[i] == chain[i];
      FindFromIs(c', 0, k, j);
    case None =>
      assert forall i :: 0 <= i < |chain| ==> c'[i] == chain[i];
      FindFromIs(c', 0, k, |chain|);
  }

  // ---------------------------------------------------------------------------
  // Removing from a chain (hashtable.c:237-268, as written)

  /** The chain after hash_table_remove found key at position t.  The code unlinks through the
      bucket head whenever `prev` is the head node, which is true for t == 0 and also for
      t == 1: in the second case the head is dropped along with the match. */
  function ChainRemove(chain: Chain, key: Bytes): Chain
  {
    match FindFrom(chain, 0, key)
    case None => chain
    case Some(t) => if t <= 1 then chain[t + 1..] else chain[..t] + chain[t + 1..]
  }

  /** Nodes remove takes out of the chain: none on a miss, two when the match is second. */
  function RemovedCount(chain: Chain, key: Bytes): nat
  {
    match FindFrom(chain, 0, key)
    case None => 0
    case Some(t) => if t == 1 then 2 else 1
  }

  lemma RemoveMembers(chain: Chain, key: Bytes)
    ensures forall y :: y in ChainRemove(chain, key) ==> y in chain
  {
    match FindFrom(chain, 0, key)
    case None =>
    case Some(t) =>
      if t > 1 {
        assert chain == chain[..t] + chain[t..];
      }
  }

  /** A miss leaves the chain alone; a hit at any position other than the second takes out
      exactly that element and keeps the others in order. */
  lemma {:induction false} RemoveSpec(chain: Chain, key: Bytes)
    ensures |ChainRemove(chain, key)| == |chain| - RemovedCount(chain, key)
    ensures !Carries(chain, key) ==> ChainRemove(chain, key) == chain
    ensures forall t :: 0 <= t < |chain| && t != 1 && FindFrom(chain, 0, key) == Some(t) ==>
      ChainRemove(chain, key) == chain[..t] + chain[t + 1..]
      && multiset(ChainRemove(chain, key)) + multiset{chain[t]} == multiset(chain)
  {
    match FindFrom(chain, 0, key)
    case None =>
    case Some(t) =>
      if t == 1 {
        assert ChainRemove(chain, key) == chain[2..];
      } else {
        assert chain[..t] + chain[t + 1..] == ChainRemove(chain, key) by {
          if t == 0 {
            assert chain[..0] + chain[1..] == chain[1..];
          }
        }
        SplitAt(chain, t);
      }
  }

  /** A chain is the part before t, the element at t and the part after it. */
  lemma SplitAt(chain: Chain, t: nat)
    requires t < |chain|
    ensures multiset(chain) == multiset(chain[..t] + chain[t + 1..]) + multiset{chain[t]}
  {
    assert chain == chain[..t] + [chain[t]] + chain[t + 1..];
  }

  /** Removing a key from a chain whose keys are distinct makes it unfindable. */
  lemma {:induction false} LookupAfterRemove(chain: Chain, key: Bytes)
    requires DistinctKeys(chain)
    ensures ChainLookup(ChainRemove(chain, key), key).None?
  {
    var c' := ChainRemove(chain, key);
    match FindFrom(chain, 0, key)
    case None =>
    case Some(t) =>
      forall i | 0 <= i < |c'| ensures c'[i].key != key {
        if t <= 1 {
          assert c'[i] == chain[t + 1 + i];
        } else if i < t {
          assert c'[i] == chain[i];
        } else {
          assert c'[i] == chain[i + 1];
        }
      }
  }

  /** Removing the second element of a two-element chain also loses the head. */
  lemma RemoveDropsHead(a: Element, b: Element)
    requires a.key != b.key
    ensures ChainRemove([a, b], b.key) == []
    ensures ChainLookup(ChainRemove([a, b], b.key), a.key).None?
  {
    assert FindFrom([a, b], 0, b.key) == Some(1);
  }

  /** The evidently intended unlinking: only the matching node leaves the chain. */
  function ChainRemoveIntended(chain: Chain, key: Bytes): Chain
  {
    match FindFrom(chain, 0, key)
    case None => chain
    case Some(t) => chain[..t] + chain[t + 1..]
  }

  /** Unlinking only the match removes exactly one node on a hit and never changes
      what another key finds. */
  lemma {:induction false} IntendedRemoveCorrect(chain: Chain, key: Bytes, other: Bytes)
    requires other != key
    ensures |ChainRemoveIntended(chain, key)| == |chain| - (if Carries(chain, key) then 1 else 0)
    ensures ChainLookup(ChainRemoveIntended(chain, key), other) == ChainLookup(chain, other)
  {
    var c' := ChainRemoveIntended(chain, key);
    match FindFrom(chain, 0, key)
    case None =>
    case Some(t) =>
      assert forall i :: 0 <= i < t ==> c'[i] == chain[i];
      assert forall i :: t <= i < |c'| ==> c'[i] == chain[i + 1];
      assert chain[t].key != other;
      match FindFrom(chain, 0, other)
      case None =>
        assert FindFrom(c', 0, other).None?;
      case Some(j) =>
        if j < t {
          assert FindFrom(c', 0, other) == Some(j);
        } else {
          FindFromIs(c', 0, other, j - 1);
        }
  }

  // ---------------------------------------------------------------------------
  // The bucket array

  /** All elements of the table: buckets in index order, each chain head to tail
      (the order hash_table_get_elements lists them in). */
  function Flatten(chains: seq<Chain>): seq<Element>
  {
    if chains == [] then [] else Flatten(chains[..|chains| - 1]) + chains[|chains| - 1]
  }

  lemma {:induction false} FlattenAppend(a: seq<Chain>, b: seq<Chain>)
    ensures Flatten(a + b) == Flatten(a) + Flatten(b)
    decreases |b|
  {
    if b == [] {
      assert a + b == a;
    } else {
      var b' := b[..|b| - 1];
      assert (a + b)[..|a + b| - 1] == a + b';
      FlattenAppend(a, b');
    }
  }

  /** Flattening splits at any bucket boundary. */
  lemma FlattenSplit(chains: seq<Chain>, i: nat)
    requires i <= |chains|
    ensures Flatten(chains) == Flatten(chains[..i]) + Flatten(chains[i..])
  {
    assert chains == chains[..i] + chains[i..];
    FlattenAppend(chains[..i], chains[i..]);
  }

  /** Flattening one more bucket of a prefix appends that bucket, within the whole. */
  lemma FlattenStep(chains: seq<Chain>, i: nat)
    requires i < |chains|
    ensures Flatten(chains[..i + 1]) == Flatten(chains[..i]) + chains[i]
    ensures |Flatten(chains[..i + 1])| <= |Flatten(chains)|
  {
    assert chains[..i + 1][..i] == chains[..i];
    FlattenSplit(chains, i + 1);
  }

  /** Flattening after one bucket has been rewritten. */
  lemma {:induction false} FlattenUpdate(chains: seq<Chain>, h: nat, x: Chain)
    requires h < |chains|
    ensures Flatten(chains) == Flatten(chains[..h]) + chains[h] + Flatten(chains[h + 1..])
    ensures Flatten(chains[h := x]) == Flatten(chains[..h]) + x + Flatten(chains[h + 1..])
    ensures |Flatten(chains[h := x])| == |Flatten(chains)| - |chains[h]| + |x|
  {
    assert chains == chains[..h] + [chains[h]] + chains[h + 1..];
    assert chains[h := x] == chains[..h] + [x] + chains[h + 1..];
    FlattenAppend(chains[..h] + [chains[h]], chains[h + 1..]);
    FlattenAppend(chains[..h], [chains[h]]);
    FlattenAppend(chains[..h] + [x], chains[h + 1..]);
    FlattenAppend(chains[..h], [x]);
    assert Flatten([chains[h]]) == chains[h] by { assert [chains[h]][..0] == []; }
    assert Flatten([x]) == x by { assert [x][..0] == []; }
  }

  /** The empty bucket array calloc returns. */
  function EmptyChains(n: nat): (r: seq<Chain>)
    ensures |r| == n && forall i :: 0 <= i < n ==> r[i] == []
  {
    seq(n, _ => [])
  }

  lemma {:induction false} FlattenEmpty(n: nat)
    ensures Flatten(EmptyChains(n)) == []
  {
    if n > 0 {
      assert EmptyChains(n)[..n - 1] == EmptyChains(n - 1);
      FlattenEmpty(n - 1);
    }
  }

  /** The 32-bit hash of a key (hashtable.c computes it with MurmurHash3_x86_32). */
  type Digest = Bytes -> bv32

  /** hash_table_do_hash: the key's 32-bit hash reduced modulo the number of buckets. */
  function Bucket(digest: Digest, key: Bytes, n: nat): (h: nat)
    requires n > 0
    ensures h < n
  {
    digest(key) as int % n
  }

  /** Every element sits in the bucket its key hashes to. */
  ghost predicate Placed(digest: Digest, chains: seq<Chain>)
  {
    forall i, j :: 0 <= i < |chains| && 0 <= j < |chains[i]| ==>
      Bucket(digest, chains[i][j].key, |chains|) == i
  }

  /** The bucket array after hash_table_add has put e into the bucket of its key. */
  function InsertAt(digest: Digest, chains: seq<Chain>, e: Element): seq<Chain>
    requires |chains| > 0
  {
    var h := Bucket(digest, e.key, |chains|);
    chains[h := ChainAdd(chains[h], e)]
  }

  /** The bucket array hash_table_resize builds in n fresh buckets: it re-adds the listed
      elements from the LAST to the first (elements[--count]), so es[0] goes in last. */
  function Rehash(digest: Digest, es: seq<Element>, n: nat): (r: seq<Chain>)
    requires n > 0
    ensures |r| == n
  {
    if es == [] then EmptyChains(n) else InsertAt(digest, Rehash(digest, es[1..], n), es[0])
  }

  /** One step of the rebuild loop: re-adding es[i] on top of the rebuild of es[i+1..]. */
  lemma RehashStep(digest: Digest, es: seq<Element>, i: nat, n: nat)
    requires i < |es| && n > 0
    ensures Rehash(digest, es[i..], n) == InsertAt(digest, Rehash(digest, es[i + 1..], n), es[i])
  {
    assert es[i..][1..] == es[i + 1..];
  }

  /** Rewriting one bucket keeps placement when the new chain only holds keys of that bucket. */
  lemma UpdatePlaced(digest: Digest, chains: seq<Chain>, h: nat, x: Chain)
    requires h < |chains| && Placed(digest, chains)
    requires forall y :: y in x ==> y in chains[h]
    ensures Placed(digest, chains[h := x])
  {
    var c: seq<Chain> := chains[h := x];
    forall i, j | 0 <= i < |c| && 0 <= j < |c[i]|
      ensures Bucket(digest, c[i][j].key, |c|) == i
    {
      if i == h {
        assert x[j] in x && x[j] in chains[h];
        var m :| 0 <= m < |chains[h]| && chains[h][m] == x[j];
      }
    }
  }

  /** The bucket array after hash_table_remove has unlinked key from the bucket of key. */
  function RemoveAt(digest: Digest, chains: seq<Chain>, key: Bytes): seq<Chain>
    requires |chains| > 0
  {
    var h := Bucket(digest, key, |chains|);
    chains[h := ChainRemove(chains[h], key)]
  }

  /** Inserting keeps every node in its bucket and adds one node unless it replaced one. */
  lemma InsertFacts(digest: Digest, chains: seq<Chain>, e: Element)
    requires |chains| > 0 && Placed(digest, chains)
    ensures Placed(digest, InsertAt(digest, chains, e))
    ensures var h := Bucket(digest, e.key, |chains|);
      |Flatten(InsertAt(digest, chains, e))| == |Flatten(chains)| + (if Replaces(chains[h], e.key) then 0 else 1)
  {
    var h := Bucket(digest, e.key, |chains|);
    InsertAtPlaced(digest, chains, e);
    FlattenUpdate(chains, h, ChainAdd(chains[h], e));
    AddLength(chains[h], e);
  }

  /** Removing keeps every node in its bucket and takes out at least one node when the
      bucket carries the key, none otherwise. */
  lemma RemoveFacts(digest: Digest, chains: seq<Chain>, key: Bytes)
    requires |chains| > 0 && Placed(digest, chains)
    ensures Placed(digest, RemoveAt(digest, chains, key))
    ensures var h := Bucket(digest, key, |chains|);
      |Flatten(RemoveAt(digest, chains, key))| == |Flatten(chains)| - RemovedCount(chains[h], key)
      && (Carries(chains[h], key) <==> RemovedCount(chains[h], key) >= 1)
  {
    var h := Bucket(digest, key, |chains|);
    RemoveMembers(chains[h], key);
    UpdatePlaced(digest, chains, h, ChainRemove(chains[h], key));
    FlattenUpdate(chains, h, ChainRemove(chains[h], key));
    RemoveSpec(chains[h], key);
    LookupFirstMatch(chains[h], key);
  }

  lemma InsertAtPlaced(digest: Digest, chains: seq<Chain>, e: Element)
    requires |chains| > 0 && Placed(digest, chains)
    ensures Placed(digest, InsertAt(digest, chains, e))
  {
  }

  /** Rehashing puts every element in the bucket of its key and never adds elements. */
  lemma {:induction false} RehashPlaced(digest: Digest, es: seq<Element>, n: nat)
    requires n > 0
    ensures Placed(digest, Rehash(digest, es, n))
    ensures |Flatten(Rehash(digest, es, n))| <= |es|
  {
    if es == [] {
      FlattenEmpty(n);
    } else {
      var pre: seq<Chain> := Rehash(digest, es[1..], n);
      RehashPlaced(digest, es[1..], n);
      InsertAtPlaced(digest, pre, es[0]);
      var h := Bucket(digest, es[0].key, n);
      FlattenUpdate(pre, h, ChainAdd(pre[h], es[0]));
      AddLength(pre[h], es[0]);
    }
  }

  /** When no key repeats, rehashing keeps exactly the same elements: nothing is replaced,
      lost or duplicated. */
  lemma {:induction false} RehashKeepsElements(digest: Digest, es: seq<Element>, n: nat)
    requires n > 0 && DistinctKeys(es)
    ensures multiset(Flatten(Rehash(digest, es, n))) == multiset(es)
  {
    if es != [] {
      var pre: seq<Chain> := Rehash(digest, es[1..], n);
      RehashKeepsElements(digest, es[1..], n);
      var e := es[0];
      var h := Bucket(digest, e.key, n);
      HeadKeyFresh(es);
      BucketLacksKey(pre, es[1..], e, h);
      InsertFresh(digest, pre, e);
      assert Rehash(digest, es, n) == InsertAt(digest, pre, e);
    } else {
      FlattenEmpty(n);
    }
  }

  /** With distinct keys, the first key is not among the others, which stay distinct. */
  lemma HeadKeyFresh(es: seq<Element>)
    requires es != [] && DistinctKeys(es)
    ensures DistinctKeys(es[1..]) && forall x :: x in es[1..] ==> x.key != es[0].key
    ensures multiset(es) == multiset{es[0]} + multiset(es[1..])
  {
    forall x | x in es[1..] ensures x.key != es[0].key {
      var i :| 0 <= i < |es[1..]| && es[1..][i] == x;
      assert es[i + 1] == x;
    }
    assert es == [es[0]] + es[1..];
  }

  lemma BucketLacksKey(chains: seq<Chain>, rest: seq<Element>, e: Element, h: nat)
    requires h < |chains| && multiset(Flatten(chains)) == multiset(rest)
    requires forall x :: x in rest ==> x.key != e.key
    ensures forall j :: 0 <= j < |chains[h]| ==> chains[h][j].key != e.key
  {
    FlattenUpdate(chains, h, chains[h]);
    forall j | 0 <= j < |chains[h]| ensures chains[h][j].key != e.key {
      assert chains[h][j] in multiset(Flatten(chains));
    }
  }

  /** Inserting an element whose key its bucket lacks appends it: one more element. */
  lemma InsertFresh(digest: Digest, chains: seq<Chain>, e: Element)
    requires |chains| > 0
    requires var h := Bucket(digest, e.key, |chains|);
      forall j :: 0 <= j < |chains[h]| ==> chains[h][j].key != e.key
    ensures multiset(Flatten(InsertAt(digest, chains, e))) == multiset(Flatten(chains)) + multiset{e}
  {
    var h := Bucket(digest, e.key, |chains|);
    assert ChainAdd(chains[h], e) == chains[h] + [e];
    FlattenUpdate(chains, h, chains[h] + [e]);
  }

  /** With distinct keys, the key/value pairs a table shows are those of its elements,
      wherever they sit. */
  lemma {:induction false} DistinctLookup(chain: Chain, k: Bytes, v: Bytes)
    requires DistinctKeys(chain)
    ensures ChainLookup(chain, k) == Some(v) <==> Element(k, v) in chain
  {
    LookupFirstMatch(chain, k);
    if Element(k, v) in chain {
      var j :| 0 <= j < |chain| && chain[j] == Element(k, v);
      assert FindFrom(chain, 0, k) == Some(j);
    }
  }

  /** Re-adding two nodes of one key (which the head comparison bug can create) in reverse
      order swaps them, so after a resize lookup returns the other value. */
  lemma ResizeSwapsDuplicates(digest: Digest, k: Bytes, v1: Bytes, v2: Bytes, n: nat)
    requires n > 0
    ensures var h := Bucket(digest, k, n);
      Rehash(digest, [Element(k, v1), Element(k, v2)], n)[h] == [Element(k, v2), Element(k, v1)]
      && ChainLookup(Rehash(digest, [Element(k, v1), Element(k, v2)], n)[h], k) == Some(v2)
  {
    var h := Bucket(digest, k, n);
    var es := [Element(k, v1), Element(k, v2)];
    assert es[1..][1..] == [];
    assert Rehash(digest, es[1..], n)[h] == [Element(k, v2)];
  }

  // ---------------------------------------------------------------------------
  // The keys a bucket array holds

  /** The keys carried by some elements. */
  function Keys(es: seq<Element>): set<Bytes>
  {
    set x | x in es :: x.key
  }

  lemma KeysConcat(a: seq<Element>, b: seq<Element>)
    ensures Keys(a + b) == Keys(a) + Keys(b)
  {
    assert forall x :: x in a + b <==> x in a || x in b;
  }

  /** Adding to a chain adds exactly the element's key to the chain's keys: a replaced node
      carried that key already. */
  lemma ChainAddKeys(chain: Chain, e: Element)
    ensures Keys(ChainAdd(chain, e)) == Keys(chain) + {e.key}
  {
    if chain == [] {
      assert Keys([e]) == {e.key} by { assert forall x :: x in [e] <==> x == e; }
    } else {
      match FindFrom(chain, 1, e.key)
      case Some(j) =>
        var c := chain[j := e];
        assert e.key in Keys(chain) by { assert chain[j] in chain; }
        forall k | k in Keys(chain)
          ensures k in Keys(c)
        {
          var x :| x in chain && x.key == k;
          var t :| 0 <= t < |chain| && chain[t] == x;
          if t == j {
            assert c[j] in c;
          } else {
            assert c[t] in c;
          }
        }
        forall k | k in Keys(c)
          ensures k in Keys(chain)
        {
          var x :| x in c && x.key == k;
          var t :| 0 <= t < |c| && c[t] == x;
          if t != j {
            assert chain[t] in chain;
          }
        }
      case None =>
        KeysConcat(chain, [e]);
        assert Keys([e]) == {e.key} by { assert forall x :: x in [e] <==> x == e; }
    }
  }

  /** Inserting adds exactly the element's key to the keys of the bucket array. */
  lemma InsertAtKeys(digest: Digest, chains: seq<Chain>, e: Element)
    requires |chains| > 0
    ensures Keys(Flatten(InsertAt(digest, chains, e))) == Keys(Flatten(chains)) + {e.key}
  {
    var h := Bucket(digest, e.key, |chains|);
    var x := ChainAdd(chains[h], e);
    FlattenUpdate(chains, h, x);
    KeysConcat(Flatten(chains[..h]) + chains[h], Flatten(chains[h + 1..]));
    KeysConcat(Flatten(chains[..h]), chains[h]);
    KeysConcat(Flatten(chains[..h]) + x, Flatten(chains[h + 1..]));
    KeysConcat(Flatten(chains[..h]), x);
    ChainAddKeys(chains[h], e);
  }

  /** Rehashing keeps exactly the keys of the elements re-added. */
  lemma {:induction false} RehashKeys(digest: Digest, es: seq<Element>, n: nat)
    requires n > 0
    ensures Keys(Flatten(Rehash(digest, es, n))) == Keys(es)
  {
    if es == [] {
      FlattenEmpty(n);
    } else {
      RehashKeys(digest, es[1..], n);
      InsertAtKeys(digest, Rehash(digest, es[1..], n), es[0]);
      assert es == [es[0]] + es[1..];
      KeysConcat([es[0]], es[1..]);
      assert Keys([es[0]]) == {es[0].key} by { assert forall x :: x in [es[0]] <==> x == es[0]; }
    }
  }

  /** An element of the bucket array sits in one of its buckets, and every bucket's elements
      are elements of the array. */
  lemma {:induction false} FlattenMembers(chains: seq<Chain>, x: Element)
    ensures x in Flatten(chains) <==> exists i :: 0 <= i < |chains| && x in chains[i]
  {
    if chains != [] {
      var init := chains[..|chains| - 1];
      FlattenMembers(init, x);
      assert forall i :: 0 <= i < |init| ==> init[i] == chains[i];
    }
  }

  /** In a bucket array where every element sits in its key's bucket, that bucket carries a
      key exactly when some element of the array does. */
  lemma PlacedCarries(digest: Digest, chains: seq<Chain>, k: Bytes)
    requires |chains| > 0 && Placed(digest, chains)
    ensures Carries(chains[Bucket(digest, k, |chains|)], k) <==> k in Keys(Flatten(chains))
  {
    var h := Bucket(digest, k, |chains|);
    if Carries(chains[h], k) {
      var j :| 0 <= j < |chains[h]| && chains[h][j].key == k;
      FlattenMembers(chains, chains[h][j]);
    }
    if k in Keys(Flatten(chains)) {
      var x :| x in Flatten(chains) && x.key == k;
      FlattenMembers(chains, x);
      var i :| 0 <= i < |chains| && x in chains[i];
      var j :| 0 <= j < |chains[i]| && chains[i][j] == x;
      assert Bucket(digest, chains[i][j].key, |chains|) == i;
    }
  }

  // ---------------------------------------------------------------------------
  // Deleting by callback (hashtable.c:629-654)

  /** The nodes of a chain that hash_table_iterate keeps: those whose callback returned 0. */
  function Keep(chain: Chain, fct: (Bytes, Bytes) -> bool): (r: Chain)
    ensures |r| <= |chain|
  {
    if chain == [] then []
    else
      var last := chain[|chain| - 1];
      Keep(chain[..|chain| - 1], fct) + (if fct(last.value, last.key) then [] else [last])
  }

  lemma KeepMembers(chain: Chain, fct: (Bytes, Bytes) -> bool)
    ensures forall y :: y in Keep(chain, fct) ==> y in chain
  {
    KeepIsFilter(chain, fct);
  }

  /** The bucket array after every bucket has been filtered. */
  function KeepAll(chains: seq<Chain>, fct: (Bytes, Bytes) -> bool): (r: seq<Chain>)
    ensures |r| == |chains|
  {
    seq(|chains|, i requires 0 <= i < |chains| => Keep(chains[i], fct))
  }

  /** Filtering bucket i once more extends the filtered prefix by one bucket. */
  lemma KeepAllStep(chains: seq<Chain>, i: nat, fct: (Bytes, Bytes) -> bool)
    requires i < |chains|
    ensures KeepAll(chains[..i + 1], fct) + chains[i + 1..]
         == (KeepAll(chains[..i], fct) + chains[i..])[i := Keep(chains[i], fct)]
  {
  }

  /** Filtering never moves a node to another bucket. */
  lemma KeepAllPlaced(digest: Digest, chains: seq<Chain>, fct: (Bytes, Bytes) -> bool)
    requires Placed(digest, chains)
    ensures Placed(digest, KeepAll(chains, fct))
  {
    var c: seq<Chain> := KeepAll(chains, fct);
    forall i, j | 0 <= i < |c| && 0 <= j < |c[i]|
      ensures Bucket(digest, c[i][j].key, |c|) == i
    {
      KeepMembers(chains[i], fct);
      assert c[i][j] in chains[i];
      var m :| 0 <= m < |chains[i]| && chains[i][m] == c[i][j];
    }
  }

  lemma {:induction false} SelectedConcat(a: seq<Element>, b: seq<Element>, fct: (Bytes, Bytes) -> bool)
    ensures Selected(a + b, fct) == Selected(a, fct) + Selected(b, fct)
    decreases |b|
  {
    if b == [] {
      assert a + b == a;
    } else {
      assert (a + b)[..|a + b| - 1] == a + b[..|b| - 1];
      SelectedConcat(a, b[..|b| - 1], fct);
    }
  }

  /** No more nodes are selected than there are. */
  lemma {:induction false} SelectedBound(es: seq<Element>, fct: (Bytes, Bytes) -> bool)
    ensures Selected(es, fct) <= |es|
  {
    if es != [] {
      SelectedBound(es[..|es| - 1], fct);
    }
  }

  /** Once every bucket is filtered, the bucket array is KeepAll's, and it holds the nodes
      the callback did not select. */
  lemma FilterDone(chains: seq<Chain>, fct: (Bytes, Bytes) -> bool)
    ensures chains[..|chains|] == chains
    ensures KeepAll(chains[..|chains|], fct) + chains[|chains|..] == KeepAll(chains, fct)
    ensures |Flatten(KeepAll(chains, fct))| == |Flatten(chains)| - Selected(Flatten(chains), fct)
  {
    assert chains[..|chains|] == chains;
    FlattenKeepAll(chains, fct);
    KeepCount(Flatten(chains), fct);
  }

  /** Keep is a filter: exactly the elements whose callback says 0 survive, in their order. */
  lemma {:induction false} KeepIsFilter(chain: Chain, fct: (Bytes, Bytes) -> bool)
    ensures forall x :: x in Keep(chain, fct) ==> x in chain && !fct(x.value, x.key)
    ensures forall x :: x in chain && !fct(x.value, x.key) ==> x in Keep(chain, fct)
  {
    if chain != [] {
      KeepIsFilter(chain[..|chain| - 1], fct);
      assert chain == chain[..|chain| - 1] + [chain[|chain| - 1]];
    }
  }

  /** Filtering bucket by bucket filters the element list: survivors keep their relative
      order across the whole table. */
  lemma {:induction false} FlattenKeepAll(chains: seq<Chain>, fct: (Bytes, Bytes) -> bool)
    ensures Flatten(KeepAll(chains, fct)) == Keep(Flatten(chains), fct)
  {
    if chains != [] {
      var n := |chains|;
      assert KeepAll(chains, fct)[..n - 1] == KeepAll(chains[..n - 1], fct);
      FlattenKeepAll(chains[..n - 1], fct);
      KeepConcat(Flatten(chains[..n - 1]), chains[n - 1], fct);
    }
  }

  lemma {:induction false} KeepConcat(a: Chain, b: Chain, fct: (Bytes, Bytes) -> bool)
    ensures Keep(a + b, fct) == Keep(a, fct) + Keep(b, fct)
    decreases |b|
  {
    if b == [] {
      assert a + b == a;
    } else {
      assert (a + b)[..|a + b| - 1] == a + b[..|b| - 1];
      KeepConcat(a, b[..|b| - 1], fct);
    }
  }

  /** The number of elements the callback selects for deletion. */
  function Selected(es: seq<Element>, fct: (Bytes, Bytes) -> bool): nat
  {
    if es == [] then 0
    else Selected(es[..|es| - 1], fct) + (if fct(es[|es| - 1].value, es[|es| - 1].key) then 1 else 0)
  }

  /** The filter removes exactly the selected elements. */
  lemma {:induction false} KeepCount(es: seq<Element>, fct: (Bytes, Bytes) -> bool)
    ensures |Keep(es, fct)| == |es| - Selected(es, fct)
  {
    if es != [] {
      KeepCount(es[..|es| - 1], fct);
    }
  }
}
