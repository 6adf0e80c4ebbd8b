/** The nodes of the B+ tree with their arrays, changed in place (b+tree.go, lines 36-235 and
    260-483). A key and its value move together, so a leaf has one array of entries here. An
    inner node is generic in what it points to. Node ids only label the printed graph and are ghost. */
module BTreeNodes {
  import opened BTree
  import opened BTreeBody
  import opened BTreeInsert
  import opened BTreeDelete

  // ----- shifting

  /** Moves the slots from `i` to `n` up by one. */
  method OpenGap<T>(a: array<T>, i: nat, n: nat)
    requires i <= n < a.Length
    modifies a
    ensures a[..i] == old(a[..i]) && a[i + 1..n + 1] == old(a[i..n])
  {
    var l := n;
    while l > i
      invariant i <= l <= n
      invariant forall j :: 0 <= j < l ==> a[j] == old(a[j])
      invariant forall j :: l < j <= n ==> a[j] == old(a[j - 1])
    {
      a[l] := a[l - 1];
      l := l - 1;
    }
  }

  /** Moves the slots from `i + 1` to `n` down by one. */
  method CloseGap<T>(a: array<T>, i: nat, n: nat)
    requires i < n <= a.Length
    modifies a
    ensures a[..n - 1] == RemoveAt(old(a[..n]), i)
  {
    var j := i + 1;
    while j < n
      invariant i < j <= n
      invariant forall k :: 0 <= k < i ==> a[k] == old(a[k])
      invariant forall k :: i <= k < j - 1 ==> a[k] == old(a[k + 1])
      invariant forall k :: j - 1 < k < n ==> a[k] == old(a[k])
    {
      a[j - 1] := a[j];
      j := j + 1;
    }
    ghost var was := old(a[..n]);
    assert forall k :: 0 <= k < n - 1 ==> a[..n - 1][k] == RemoveAt(was, i)[k];
  }

  /** Inserts `x` at slot `i` of the first `n`. */
  method InsertSlot<T>(a: array<T>, i: nat, n: nat, x: T)
    requires i <= n < a.Length
    modifies a
    ensures a[..n + 1] == InsertAt(old(a[..n]), i, x)
  {
    OpenGap(a, i, n);
    ghost var tail := a[i + 1..n + 1];
    a[i] := x;
    assert a[i + 1..n + 1] == tail;
    ghost var was := old(a[..n]);
    assert was[..i] == old(a[..i]) && was[i..] == old(a[i..n]);
    assert a[..n + 1] == a[..i] + [a[i]] + a[i + 1..n + 1];
  }

  /** Copies `src[from..from + n]` to `dst[into..into + n]`. */
  method CopySlots<T>(src: array<T>, from: nat, dst: array<T>, into: nat, n: nat)
    requires src != dst && from + n <= src.Length && into + n <= dst.Length
    modifies dst
    ensures dst[into..into + n] == src[from..from + n] && dst[..into] == old(dst[..into])
  {
    var k := 0;
    while k < n
      invariant k <= n
      invariant forall j :: 0 <= j < into ==> dst[j] == old(dst[j])
      invariant forall j :: into <= j < into + k ==> dst[j] == src[from + j - into]
    {
      dst[into + k] := src[from + k];
      k := k + 1;
    }
  }

  lemma RemoveFirst<T>(s: seq<T>)
    requires |s| > 0
    ensures s == [s[0]] + RemoveAt(s, 0)
  {}

  // ----- leaves

  class LeafNode<V(0)> {
    ghost const id: nat
    const slots: array<Entry<V>>
    var nkeys: nat
    var prev: LeafNode?<V>
    var next: LeafNode?<V>

    ghost predicate Valid()
      reads this`nkeys
    {
      nkeys <= slots.Length
    }

    ghost function Entries(): seq<Entry<V>>
      reads this`nkeys, slots
      requires Valid()
    {
      slots[..nkeys]
    }

    constructor (ghost id: nat, degree: nat)
      ensures Valid() && this.id == id && slots.Length == degree && fresh(slots) && nkeys == 0 && prev == null
      ensures next == null
    {
      this.id := id;
      slots := new Entry<V>[degree];
      nkeys, prev, next := 0, null, null;
    }

    method Position(key: int) returns (i: nat)
      requires Valid()
      ensures i == LowerBound(Entries(), key)
    {
      i := 0;
      while i < nkeys && slots[i].key < key
        invariant i <= nkeys && forall j :: 0 <= j < i ==> slots[j].key < key
      {
        i := i + 1;
      }
      BoundUnique(Entries(), key, i);
    }

    /** Updates the value of a key that is there, or makes room for it. */
    method PutHere(key: int, val: V) returns (found: bool)
      requires Valid() && (nkeys == slots.Length ==> Holds(Entries(), LowerBound(Entries(), key), key))
      modifies this`nkeys, slots
      ensures Valid() && Entries() == Put(old(Entries()), key, val)
      ensures found <==> Holds(old(Entries()), LowerBound(old(Entries()), key), key)
    {
      hide LowerBound, InsertAt;
      var i := Position(key);
      found := i < nkeys && slots[i].key == key;
      if found {
        slots[i] := Entry(key, val);
      } else {
        InsertSlot(slots, i, nkeys, Entry(key, val));
        nkeys := nkeys + 1;
      }
    }

    /** As the insertion into a leaf value; a split also links the new right half into the chain. */
    method InsertKV(key: int, val: V, ghost newId: nat) returns (right: LeafNode?<V>)
      requires Valid() && 2 <= slots.Length && next != this
      requires nkeys == slots.Length ==> Holds(Entries(), LowerBound(Entries(), key), key)
      modifies this, slots, (if next == null then {} else {next})`prev
      ensures Valid()
      ensures right != null ==>
                fresh(right) && fresh(right.slots) && right.Valid() && right.slots.Length == slots.Length
      ensures match LeafInsert(LeafRec(id, old(Entries())), slots.Length, key, val, newId).0
              case Same(t) => right == null && t.leaf == LeafRec(id, Entries())
              case Split(l, s, r) =>
                && right != null && l.leaf == LeafRec(id, Entries()) && r.leaf == LeafRec(right.id, right.Entries())
                && right.nkeys > 0 && s == right.slots[0].key
      ensures right == null ==> prev == old(prev) && next == old(next) && (next != null ==> next.prev == old(next.prev))
      ensures right != null ==>
                && prev == old(prev) && next == right && right.prev == this && right.next == old(next)
                && (old(next) != null ==> old(next).prev == right)
    {
      hide LowerBound, Put;
      var found := PutHere(key, val);
      right := null;
      if !found && nkeys == slots.Length {
        right := SplitOff(newId);
        right.prev := this;
        right.next := next;
        if next != null { next.prev := right; }
        next := right;
      }
    }

    /** A new leaf gets the upper half of the entries. */
    method SplitOff(ghost newId: nat) returns (right: LeafNode<V>)
      requires Valid() && 2 <= slots.Length == nkeys
      modifies this`nkeys
      ensures Valid() && fresh(right) && fresh(right.slots) && right.Valid() && right.id == newId
      ensures right.slots.Length == slots.Length
      ensures Entries() == old(Entries())[..slots.Length / 2] && right.Entries() == old(Entries())[slots.Length / 2..]
    {
      right := new LeafNode(newId, slots.Length);
      var nLeft := slots.Length / 2;
      var nRight := slots.Length - nLeft;
      CopySlots(slots, nLeft, right.slots, 0, nRight);
      right.nkeys := nRight;
      assert right.slots[..nRight] == right.slots[0..0 + nRight];
      assert slots[nLeft..nLeft + nRight] == slots[..nkeys][nLeft..];
      nkeys := nLeft;
    }

    method DelByIndex(i: nat)
      requires Valid() && i < nkeys
      modifies this`nkeys, slots
      ensures Valid() && Entries() == RemoveAt(old(Entries()), i)
    {
      CloseGap(slots, i, nkeys);
      nkeys := nkeys - 1;
    }

    method Delete(key: int)
      requires Valid()
      modifies this`nkeys, slots
      ensures Valid() && Entries() == Remove(old(Entries()), key)
    {
      hide LowerBound;
      var i := Position(key);
      if i < nkeys && slots[i].key == key { DelByIndex(i); }
    }

    method RemoveMin() returns (e: Entry<V>)
      requires Valid() && nkeys > 0
      modifies this`nkeys, slots
      ensures Valid() && old(Entries()) == [e] + Entries()
    {
      hide RemoveAt;
      RemoveFirst(Entries());
      e := slots[0];
      DelByIndex(0);
    }

    method RemoveMax() returns (e: Entry<V>)
      requires Valid() && nkeys > 0
      modifies this`nkeys
      ensures Valid() && old(Entries()) == Entries() + [e]
    {
      e := slots[nkeys - 1];
      nkeys := nkeys - 1;
    }

    method AppendMax(e: Entry<V>)
      requires Valid() && nkeys < slots.Length
      modifies this`nkeys, slots
      ensures Valid() && Entries() == old(Entries()) + [e]
    {
      slots[nkeys] := e;
      nkeys := nkeys + 1;
    }

    method StealFromRight(right: LeafNode<V>) returns (midKey: int)
      requires Valid() && right.Valid() && this != right && slots != right.slots && nkeys < slots.Length
      requires right.nkeys >= 2
      modifies this`nkeys, slots, right`nkeys, right.slots
      ensures Valid() && right.Valid()
      ensures Pair(Leaf(LeafRec(id, Entries())), midKey, Leaf(LeafRec(right.id, right.Entries())))
           == BTreeDelete.StealFromRight(Pair(Leaf(LeafRec(id, old(Entries()))), 0,
             Leaf(LeafRec(right.id, old(right.Entries())))))
    {
      var e := right.RemoveMin();
      ghost var es := right.Entries();
      AppendMax(e);
      midKey := right.slots[0].key;
      assert right.Entries() == es && old(right.Entries())[1..] == es;
    }

    /** The entry is put in by the ordinary insertion, which finds room for it. */
    method StealFromLeft(left: LeafNode<V>) returns (midKey: int)
      requires Valid() && left.Valid() && this != left && slots != left.slots && left.nkeys >= 1
      requires 2 <= slots.Length && nkeys < slots.Length / 2 && next != this && next != left
      modifies this, slots, left`nkeys, (if next == null then {} else {next})`prev
      ensures Valid() && left.Valid() && prev == old(prev) && next == old(next)
      ensures (next != null ==> next.prev == old(next.prev))
      ensures Pair(Leaf(LeafRec(left.id, left.Entries())), midKey, Leaf(LeafRec(id, Entries())))
           == BTreeDelete.StealFromLeft(Pair(Leaf(LeafRec(left.id, old(left.Entries()))), 0,
             Leaf(LeafRec(id, old(Entries())))))
    {
      hide Put, LeafInsert, LowerBound;
      var e := left.RemoveMax();
      ghost var es := left.Entries();
      StealDoesNotSplit(LeafRec(id, Entries()), slots.Length, e.key, e.val, 0);
      var right := InsertKV(e.key, e.val, 0);
      midKey := e.key;
      assert left.Entries() == es && old(left.Entries()) == es + [e];
    }

    method MergeWithRight(right: LeafNode<V>)
      requires Valid() && right.Valid() && this != right && slots != right.slots && nkeys + right.nkeys <= slots.Length
      requires next == right && right.next != this && right.next != right
      modifies this, slots, (if right.next == null then {} else {right.next})`prev
      ensures Valid() && Entries() == old(Entries()) + right.Entries() && prev == old(prev)
      ensures next == old(right.next) && (next != null ==> next.prev == this)
    {
      ghost var a, b := Entries(), right.Entries();
      CopySlots(right.slots, 0, slots, nkeys, right.nkeys);
      assert slots[..nkeys + right.nkeys] == slots[..nkeys] + slots[nkeys..nkeys + right.nkeys];
      assert right.slots[0..0 + right.nkeys] == b;
      nkeys := nkeys + right.nkeys;
      next := right.next;
      if right.next != null { right.next.prev := this; }
    }
  }

  // ----- inner nodes

  class InternalNode<P(0)> {
    const keys: array<int>
    const ptrs: array<P>
    var nkeys: nat

    ghost predicate Valid()
      reads this
    {
      nkeys <= keys.Length && ptrs.Length == keys.Length + 1 && (keys as object) != ptrs
    }

    ghost function Keys(): seq<int>
      reads this, keys
      requires Valid()
    {
      keys[..nkeys]
    }

    ghost function Kids(): seq<P>
      reads this, ptrs
      requires Valid()
    {
      ptrs[..nkeys + 1]
    }

    constructor (degree: nat)
      ensures Valid() && keys.Length == degree && fresh(keys) && fresh(ptrs) && nkeys == 0
    {
      keys := new int[degree];
      ptrs := new P[degree + 1];
      nkeys := 0;
    }

    /** The child to descend into. */
    method ChildFor(key: int) returns (i: nat)
      requires Valid()
      ensures i == Route(Keys(), key)
    {
      i := 0;
      while i < nkeys && key >= keys[i]
        invariant i <= nkeys && forall j :: 0 <= j < i ==> keys[j] <= key
      {
        i := i + 1;
      }
      RouteUnique(Keys(), key, i);
    }

    /** A child was split: its new right half and the separator come in after it. */
    method InsertChild(i: nat, key: int, child: P) returns (pKey: int, right: InternalNode?<P>)
      requires Valid() && 2 <= keys.Length && nkeys < keys.Length && i <= nkeys
      modifies this`nkeys, keys, ptrs
      ensures Valid()
      ensures right != null ==>
                && fresh(right) && fresh(right.keys) && fresh(right.ptrs)
                && right.Valid() && right.keys.Length == keys.Length
      ensures var ks, ps, deg := InsertAt(old(Keys()), i, key), InsertAt(old(Kids()), i + 1, child), keys.Length;
              if |ks| < deg then right == null && Keys() == ks && Kids() == ps
              else
                && right != null && pKey == ks[deg / 2]
                && Keys() == ks[..deg / 2] && Kids() == ps[..deg / 2 + 1]
                && right.Keys() == ks[deg / 2 + 1..] && right.Kids() == ps[deg / 2 + 1..]
    {
      hide InsertAt;
      InsertSlot(keys, i, nkeys, key);
      ghost var ks := keys[..nkeys + 1];
      InsertSlot(ptrs, i + 1, nkeys + 1, child);
      assert keys[..nkeys + 1] == ks;
      nkeys := nkeys + 1;
      pKey, right := 0, null;
      if nkeys == keys.Length { pKey, right := SplitOff(); }
    }

    /** The middle key goes up and a new node gets what is right of it. */
    method SplitOff() returns (pKey: int, right: InternalNode<P>)
      requires Valid() && 2 <= keys.Length == nkeys
      modifies this`nkeys
      ensures Valid() && fresh(right) && fresh(right.keys) && fresh(right.ptrs) && right.Valid()
      ensures right.keys.Length == keys.Length
      ensures var ks, ps, m := old(Keys()), old(Kids()), keys.Length / 2;
              && pKey == ks[m] && Keys() == ks[..m] && Kids() == ps[..m + 1]
              && right.Keys() == ks[m + 1..] && right.Kids() == ps[m + 1..]
    {
      var deg := keys.Length;
      right := new InternalNode(deg);
      var nLeft := deg / 2;
      var nRight := deg - nLeft - 1;
      CopySlots(keys, nLeft + 1, right.keys, 0, nRight);
      CopySlots(ptrs, nLeft + 1, right.ptrs, 0, nRight + 1);
      right.nkeys := nRight;
      assert right.keys[..nRight] == right.keys[0..0 + nRight]
        && right.ptrs[..nRight + 1] == right.ptrs[0..0 + (nRight + 1)];
      pKey := keys[nLeft];
      nkeys := nLeft;
    }

    method DelKeyAndPtr(k: nat, p: nat)
      requires Valid() && k < nkeys && p <= nkeys
      modifies this`nkeys, keys, ptrs
      ensures Valid() && Keys() == RemoveAt(old(Keys()), k) && Kids() == RemoveAt(old(Kids()), p)
    {
      CloseGap(keys, k, nkeys);
      ghost var ks := keys[..nkeys - 1];
      CloseGap(ptrs, p, nkeys + 1);
      assert keys[..nkeys - 1] == ks;
      nkeys := nkeys - 1;
    }

    method RemoveMin() returns (key: int, ptr: P)
      requires Valid() && nkeys > 0
      modifies this`nkeys, keys, ptrs
      ensures Valid() && old(Keys()) == [key] + Keys() && old(Kids()) == [ptr] + Kids()
    {
      hide RemoveAt;
      RemoveFirst(Keys());
      RemoveFirst(Kids());
      key, ptr := keys[0], ptrs[0];
      DelKeyAndPtr(0, 0);
    }

    method RemoveMax() returns (key: int, ptr: P)
      requires Valid() && nkeys > 0
      modifies this`nkeys
      ensures Valid() && old(Keys()) == Keys() + [key] && old(Kids()) == Kids() + [ptr]
    {
      key, ptr := keys[nkeys - 1], ptrs[nkeys];
      nkeys := nkeys - 1;
    }

    method AppendMax(key: int, ptr: P)
      requires Valid() && nkeys < keys.Length
      modifies this`nkeys, keys, ptrs
      ensures Valid() && Keys() == old(Keys()) + [key] && Kids() == old(Kids()) + [ptr]
    {
      keys[nkeys] := key;
      ptrs[nkeys + 1] := ptr;
      nkeys := nkeys + 1;
    }

    method AppendMin(key: int, ptr: P)
      requires Valid() && nkeys < keys.Length
      modifies this`nkeys, keys, ptrs
      ensures Valid() && Keys() == [key] + old(Keys()) && Kids() == [ptr] + old(Kids())
    {
      InsertSlot(keys, 0, nkeys, key);
      ghost var ks := keys[..nkeys + 1];
      InsertSlot(ptrs, 0, nkeys + 1, ptr);
      assert keys[..nkeys + 1] == ks;
      nkeys := nkeys + 1;
    }

    method StealFromRight(right: InternalNode<P>, parentKey: int) returns (midKey: int)
      requires Valid() && right.Valid() && Apart(right) && nkeys < keys.Length && right.nkeys >= 1
      modifies this`nkeys, keys, ptrs, right`nkeys, right.keys, right.ptrs
      ensures Valid() && right.Valid()
      ensures Keys() == old(Keys()) + [parentKey] && Kids() == old(Kids()) + [old(right.Kids())[0]]
      ensures midKey == old(right.Keys())[0] && right.Keys() == old(right.Keys())[1..]
      ensures right.Kids() == old(right.Kids())[1..]
    {
      var key, ptr := right.RemoveMin();
      ghost var ks, ps := right.Keys(), right.Kids();
      AppendMax(parentKey, ptr);
      midKey := key;
      assert right.Keys() == ks && right.Kids() == ps;
    }

    method StealFromLeft(left: InternalNode<P>, parentKey: int) returns (midKey: int)
      requires Valid() && left.Valid() && Apart(left) && nkeys < keys.Length && left.nkeys >= 1
      modifies this`nkeys, keys, ptrs, left`nkeys
      ensures Valid() && left.Valid()
      ensures Keys() == [parentKey] + old(Keys()) && Kids() == [old(left.Kids())[old(left.nkeys)]] + old(Kids())
      ensures old(left.Keys()) == left.Keys() + [midKey] && left.Kids() == old(left.Kids())[..old(left.nkeys)]
    {
      var key, ptr := left.RemoveMax();
      ghost var ks, ps := left.Keys(), left.Kids();
      AppendMin(parentKey, ptr);
      midKey := key;
      assert left.Keys() == ks && left.Kids() == ps;
    }

    ghost predicate Apart(other: InternalNode<P>)
      reads this, other
    {
      && this != other && keys != other.keys && ptrs != other.ptrs
      && (keys as object) != other.ptrs && (ptrs as object) != other.keys
    }

    method MergeWithRight(right: InternalNode<P>, parentKey: int)
      requires Valid() && right.Valid() && Apart(right) && nkeys + 1 + right.nkeys <= keys.Length
      modifies this`nkeys, keys, ptrs
      ensures Valid() && Keys() == old(Keys()) + [parentKey] + right.Keys() && Kids() == old(Kids()) + right.Kids()
    {
      var n, m := nkeys, right.nkeys;
      ghost var ks, ps := Keys(), Kids();
      keys[n] := parentKey;
      ghost var front := keys[..n + 1];
      assert front == ks + [parentKey];
      CopySlots(right.keys, 0, keys, n + 1, m);
      assert keys[..n + 1 + m] == keys[..n + 1] + keys[n + 1..n + 1 + m];
      assert keys[..n + 1] == front && right.keys[0..0 + m] == right.keys[..m];
      ghost var whole := keys[..n + 1 + m];
      CopySlots(right.ptrs, 0, ptrs, n + 1, m + 1);
      assert ptrs[..n + 1 + (m + 1)] == ptrs[..n + 1] + ptrs[n + 1..n + 1 + (m + 1)];
      assert right.ptrs[0..0 + (m + 1)] == right.ptrs[..m + 1];
      assert keys[..n + 1 + m] == whole;
      nkeys := n + 1 + m;
    }
  }

  lemma RouteUnique(keys: seq<int>, k: int, i: nat)
    requires i <= |keys| && (forall j :: 0 <= j < i ==> keys[j] <= k) && (i < |keys| ==> k < keys[i])
    ensures Route(keys, k) == i
  {}
}
