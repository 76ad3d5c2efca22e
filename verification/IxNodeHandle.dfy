// One node page of the index, changed in place.
module IxNode {
  import opened KeyOrder
  import opened IxDefs

  /** The child pages named by a run of rid slots. */
  function KidPages(rs: seq<Rid>): (r: seq<PageId>)
    ensures |r| == |rs| && forall i | 0 <= i < |rs| :: r[i] == rs[i].pageNo
  {
    FirstKidPages(rs, |rs|)
  }

  function FirstKidPages(rs: seq<Rid>, n: nat): (r: seq<PageId>)
    requires n <= |rs|
    ensures |r| == n && forall i | 0 <= i < n :: r[i] == rs[i].pageNo
  {
    if n == 0 then [] else FirstKidPages(rs, n - 1) + [rs[n - 1].pageNo]
  }

  /** A page in the buffer pool: key slots and rid slots of fixed number, of which the first few are in use.
      There is one rid slot more than key slots, for the last child of an internal node that is about to be split. */
  class IxNodeHandle {
    const pageNo: PageId
    const maxSize: nat
    const keys: array<Key>
    const rids: array<Rid>
    var numKey: nat
    var isLeaf: bool
    var parent: PageId
    var prevLeaf: PageId
    var nextLeaf: PageId

    ghost predicate Valid()
      reads this
    {
      keys.Length == maxSize && rids.Length == maxSize + 1 && numKey <= maxSize
    }

    /** What the page means. */
    ghost function View(): Page
      requires Valid()
      reads this, keys, rids
    {
      Page(parent, isLeaf, prevLeaf, nextLeaf, keys[..numKey],
           if isLeaf then rids[..numKey] else [],
           if isLeaf then [] else KidPages(rids[..numKey + 1]))
    }

    /** create_node's page: an internal node without keys, linked to nothing. */
    constructor (pageNo: PageId, maxSize: nat)
      ensures Valid() && this.pageNo == pageNo && this.maxSize == maxSize && numKey == 0 && !isLeaf
      ensures parent == IX_NO_PAGE && prevLeaf == IX_NO_PAGE && nextLeaf == IX_NO_PAGE
      ensures fresh(keys) && fresh(rids)
    {
      this.pageNo, this.maxSize := pageNo, maxSize;
      keys := new Key[maxSize];
      rids := new Rid[maxSize + 1];
      numKey, isLeaf := 0, false;
      parent, prevLeaf, nextLeaf := IX_NO_PAGE, IX_NO_PAGE, IX_NO_PAGE;
    }

    /** The first slot whose key is not below target. */
    method LowerBound(target: Key) returns (left: nat)
      requires Valid() && Sorted(View().keys)
      ensures left == LowerPos(View().keys, target)
    {
      left := 0;
      var right := numKey;
      while left < right
        invariant left <= right <= numKey
        invariant forall i | 0 <= i < left :: Less(View().keys[i], target)
        invariant forall i | right <= i < numKey :: !Less(View().keys[i], target)
      {
        var mid := left + (right - left) / 2;
        var c := IxCompare(keys[mid], target);
        Probe(View().keys, target, mid);
        assert View().keys[mid] == keys[mid];
        if c < 0 { left := mid + 1; } else { right := mid; }
      }
      LowerPosUnique(View().keys, target, left);
    }

    /** The first slot whose key is above target. */
    method UpperBound(target: Key) returns (left: nat)
      requires Valid() && Sorted(View().keys)
      ensures left == UpperPos(View().keys, target)
    {
      left := 0;
      var right := numKey;
      while left < right
        invariant left <= right <= numKey
        invariant forall i | 0 <= i < left :: !Less(target, View().keys[i])
        invariant forall i | right <= i < numKey :: Less(target, View().keys[i])
      {
        var mid := left + (right - left) / 2;
        var c := IxCompare(keys[mid], target);
        Probe(View().keys, target, mid);
        assert View().keys[mid] == keys[mid];
        if c <= 0 { left := mid + 1; } else { right := mid; }
      }
      UpperPosUnique(View().keys, target, left);
    }

    /** leaf_lookup: the rid stored with key in this leaf, if any. */
    method LeafLookup(key: Key) returns (value: Option<Rid>)
      requires Valid() && isLeaf && Sorted(View().keys)
      ensures value.Some? <==> key in View().keys
      ensures value.Some? ==>
        LowerPos(View().keys, key) < numKey && value.value == View().rids[LowerPos(View().keys, key)]
    {
      var pos := LowerBound(key);
      LowerPosSorted(View().keys, key);
      if pos == numKey { return None; }
      var c := IxCompare(key, keys[pos]);
      if c != 0 { return None; }
      value := Some(rids[pos]);
    }

    /** internal_lookup: the child to go on to when searching for key. */
    method InternalLookup(key: Key) returns (child: PageId)
      requires Valid() && !isLeaf && Sorted(View().keys)
      ensures LowerPos(View().keys, key) < |View().kids| && child == View().kids[LowerPos(View().keys, key)]
    {
      var childIdx := LowerBound(key);
      child := rids[childIdx].pageNo;
    }

    /** The first loop of insert_pairs: move the pairs from pos on up by n slots, from the end backwards. */
    method MoveUp(pos: nat, n: nat)
      requires Valid() && pos <= numKey && numKey + n <= maxSize
      modifies keys, rids
      ensures forall j {:trigger keys[j]} | 0 <= j < pos :: keys[j] == old(keys[j])
      ensures forall j {:trigger rids[j]} | 0 <= j < pos :: rids[j] == old(rids[j])
      ensures forall j {:trigger keys[j]} | pos + n <= j < numKey + n :: keys[j] == old(keys[j - n])
      ensures forall j {:trigger rids[j]} | pos + n <= j < numKey + n :: rids[j] == old(rids[j - n])
    {
      ghost var ks, rs := keys[..], rids[..];
      var i: int := numKey - 1;
      while i >= pos
        invariant pos - 1 <= i < numKey
        invariant forall j {:trigger keys[j]} | 0 <= j < numKey && j <= i + n :: keys[j] == ks[j]
        invariant forall j {:trigger rids[j]} | 0 <= j < numKey && j <= i + n :: rids[j] == rs[j]
        invariant forall j {:trigger keys[j]} | i + n < j < numKey + n :: keys[j] == ks[j - n]
        invariant forall j {:trigger rids[j]} | i + n < j < numKey + n :: rids[j] == rs[j - n]
      {
        keys[i + n] := keys[i];
        rids[i + n] := rids[i];
        i := i - 1;
      }
    }

    /** The second loop of insert_pairs: copy n pairs to the slots from pos on. */
    method CopyIn(pos: nat, key: seq<Key>, rid: seq<Rid>, n: nat)
      requires Valid() && n == |key| == |rid| && pos + n <= maxSize
      modifies keys, rids
      ensures forall j {:trigger keys[j]} | 0 <= j < maxSize ::
                keys[j] == if pos <= j < pos + n then key[j - pos] else old(keys[j])
      ensures forall j {:trigger rids[j]} | 0 <= j < maxSize ::
                rids[j] == if pos <= j < pos + n then rid[j - pos] else old(rids[j])
    {
      for i := 0 to n
        invariant forall j {:trigger keys[j]} | 0 <= j < maxSize ::
                    keys[j] == if pos <= j < pos + i then key[j - pos] else old(keys[j])
        invariant forall j {:trigger rids[j]} | 0 <= j < maxSize ::
                    rids[j] == if pos <= j < pos + i then rid[j - pos] else old(rids[j])
      {
        keys[pos + i] := key[i];
        rids[pos + i] := rid[i];
      }
    }

    /** insert_pairs: make room at pos and copy n pairs into the gap. */
    method InsertPairs(pos: nat, key: seq<Key>, rid: seq<Rid>, n: nat)
      requires Valid() && isLeaf && pos <= numKey && n == |key| == |rid| && numKey + n <= maxSize
      modifies this`numKey, keys, rids
      ensures Valid()
      ensures View() == old(View()).(keys := old(View().keys[..pos]) + key + old(View().keys[pos..]),
                                     rids := old(View().rids[..pos]) + rid + old(View().rids[pos..]))
    {
      ghost var ks, rs := keys[..], rids[..];
      MoveUp(pos, n);
      CopyIn(pos, key, rid, n);
      ghost var before := numKey;
      numKey := numKey + n;
      assert keys[..before + n] == ks[..before][..pos] + key + ks[..before][pos..] by {
        Spliced(keys[..], ks, pos, before, key);
        assert keys[..][..before + n] == keys[..before + n];
      }
      assert rids[..before + n] == rs[..before][..pos] + rid + rs[..before][pos..] by {
        Spliced(rids[..], rs, pos, before, rid);
        assert rids[..][..before + n] == rids[..before + n];
      }
    }

    /** The flag a page gets while it has no keys. */
    method SetLeaf(leaf: bool)
      requires Valid() && numKey == 0
      modifies this`isLeaf
      ensures Valid() && isLeaf == leaf
      ensures leaf ==> View() == old(View()).(isLeaf := true, rids := [], kids := [])
      ensures !leaf ==> View().keys == [] && View().rids == [] && !View().isLeaf && View().parent == old(View().parent)
      ensures View().prev == old(View().prev) && View().next == old(View().next)
    {
      isLeaf := leaf;
    }

    /** set_next_leaf */
    method SetNextLeaf(next: PageId)
      requires Valid()
      modifies this`nextLeaf
      ensures Valid() && View() == old(View()).(next := next)
    {
      nextLeaf := next;
    }

    /** set_prev_leaf */
    method SetPrevLeaf(prev: PageId)
      requires Valid()
      modifies this`prevLeaf
      ensures Valid() && View() == old(View()).(prev := prev)
    {
      prevLeaf := prev;
    }

    /** set_parent_page_no */
    method SetParentPageNo(page: PageId)
      requires Valid()
      modifies this`parent
      ensures Valid() && View() == old(View()).(parent := page)
    {
      parent := page;
    }

    /** set_size to fewer keys: the pairs beyond are forgotten. */
    method SetSize(size: nat)
      requires Valid() && size <= numKey
      modifies this`numKey
      ensures Valid()
      ensures View() == old(View()).(keys := old(View().keys[..size]),
                                     rids := if isLeaf then old(View().rids[..size]) else [],
                                     kids := if isLeaf then [] else old(View().kids[..size + 1]))
    {
      ghost var n := numKey;
      numKey := size;
      assert keys[..n][..size] == keys[..size];
      assert rids[..n][..size] == rids[..size] && rids[..n + 1][..size + 1] == rids[..size + 1];
    }

    /** The two memcpy calls of an internal split: this node takes the keys of node from start on, and the children
        around them. */
    method CopyFrom(node: IxNodeHandle, start: nat)
      requires Valid() && node.Valid() && !isLeaf && !node.isLeaf && node != this && node.keys != keys
      requires node.rids != rids
      requires start <= node.numKey && node.numKey - start <= maxSize
      modifies this`numKey, keys, rids
      ensures Valid()
      ensures View() == old(View()).(keys := old(node.View().keys[start..]), kids := old(node.View().kids[start..]))
    {
      var keyCount := node.numKey - start;
      forall i | 0 <= i < keyCount { keys[i] := node.keys[start + i]; }
      forall i | 0 <= i < keyCount + 1 { rids[i] := node.rids[start + i]; }
      numKey := keyCount;
      assert keys[..keyCount] == node.keys[..node.numKey][start..];
    }

    /** The first contents of a new root: one key between two children. */
    method SetOnly(key: Key, left: PageId, right: PageId)
      requires Valid() && !isLeaf && maxSize >= 1
      modifies this`numKey, keys, rids
      ensures Valid()
      ensures View() == old(View()).(keys := [key], kids := [left, right])
    {
      keys[0] := key;
      rids[0] := Rid(left, rids[0].slotNo);
      rids[1] := Rid(right, rids[1].slotNo);
      numKey := 1;
      assert keys[..1] == [key];
    }

    /** insert: add the pair unless its key is already here; the size afterwards. */
    method Insert(key: Key, value: Rid) returns (size: nat)
      requires Valid() && isLeaf && Sorted(View().keys) && numKey < maxSize
      modifies this`numKey, keys, rids
      ensures Valid() && size == numKey
      ensures key in old(View().keys) ==> View() == old(View())
      ensures key !in old(View().keys) ==>
        View() == old(View()).(keys := InsertAt(old(View().keys), LowerPos(old(View().keys), key), key),
                               rids := InsertAt(old(View().rids), LowerPos(old(View().keys), key), value))
    {
      var pos := LowerBound(key);
      LowerPosSorted(View().keys, key);
      if pos < numKey {
        var c := IxCompare(keys[pos], key);
        if c == 0 { return numKey; }
      }
      InsertPairs(pos, [key], [value], 1);
      size := numKey;
    }

    /** The memmove calls of insert_pair: one key slot is free at keyIdx, and one rid slot behind it. */
    method OpenGap(keyIdx: nat)
      requires Valid() && keyIdx <= numKey < maxSize
      modifies keys, rids
      ensures Gap(old(keys[..]), keys[..], keyIdx, numKey)
      ensures Gap(old(rids[..]), rids[..], keyIdx + 1, numKey + 1)
    {
      forall i | keyIdx <= i < numKey { keys[i + 1] := keys[i]; }
      forall i | keyIdx + 1 <= i < numKey + 1 { rids[i + 1] := rids[i]; }
    }

    /** The pair goes into the gap; the slot number behind the child page stays what it was. */
    method FillGap(keyIdx: nat, key: Key, childPageNo: PageId)
      requires Valid() && keyIdx < maxSize
      modifies keys, rids
      ensures keys[..] == old(keys[..])[keyIdx := key]
      ensures rids[..] == old(rids[..])[keyIdx + 1 := Rid(childPageNo, old(rids[keyIdx + 1].slotNo))]
    {
      keys[keyIdx] := key;
      rids[keyIdx + 1] := Rid(childPageNo, rids[keyIdx + 1].slotNo);
    }

    /** insert_pair on an internal node: key at keyIdx, the child page right of it. */
    method InsertPair(keyIdx: nat, key: Key, childPageNo: PageId)
      requires Valid() && !isLeaf && keyIdx <= numKey < maxSize
      modifies this`numKey, keys, rids
      ensures Valid()
      ensures View() == old(View()).(keys := InsertAt(old(View().keys), keyIdx, key),
                                     kids := InsertAt(old(View().kids), keyIdx + 1, childPageNo))
    {
      ghost var ks, rs := keys[..], rids[..];
      OpenGap(keyIdx);
      ghost var ks', rs' := keys[..], rids[..];
      FillGap(keyIdx, key, childPageNo);
      ghost var n, r := numKey, rids[keyIdx + 1];
      numKey := numKey + 1;
      GapFilled(ks, ks', keyIdx, n, key);
      GapFilled(rs, rs', keyIdx + 1, n + 1, r);
      KidPagesInsert(rs[..n + 1], keyIdx + 1, r);
      assert keys[..n + 1] == keys[..][..n + 1] && rids[..n + 2] == rids[..][..n + 2];
    }
  }

  /** Slots g are slots b with those from i to n moved up by one. */
  ghost predicate Gap<T>(b: seq<T>, g: seq<T>, i: nat, n: nat)
    requires i <= n < |b|
  {
    && |g| == |b|
    && (forall j {:trigger g[j]} | 0 <= j < i :: g[j] == b[j])
    && (forall j {:trigger g[j]} | i < j <= n :: g[j] == b[j - 1])
  }

  lemma GapFilled<T>(b: seq<T>, g: seq<T>, i: nat, n: nat, x: T)
    requires i <= n < |b| && Gap(b, g, i, n)
    ensures g[i := x][..n + 1] == InsertAt(b[..n], i, x)
  {
  }

  /** What comparing one key of a sorted node says about the keys on either side of it. */
  lemma Probe(ks: seq<Key>, target: Key, mid: nat)
    requires Sorted(ks) && mid < |ks|
    ensures Less(ks[mid], target) ==> forall i | 0 <= i <= mid :: Less(ks[i], target)
    ensures !Less(ks[mid], target) ==> forall i | mid <= i < |ks| :: !Less(ks[i], target)
    ensures Less(target, ks[mid]) ==> forall i | mid <= i < |ks| :: Less(target, ks[i])
    ensures !Less(target, ks[mid]) ==> forall i | 0 <= i <= mid :: !Less(target, ks[i])
  {
    Order();
  }

  /** Slots a, made from slots b by moving b[pos..n] up and putting ins in the gap. */
  lemma Spliced<T>(a: seq<T>, b: seq<T>, pos: nat, n: nat, ins: seq<T>)
    requires pos <= n && n + |ins| <= |a| == |b|
    requires forall j {:trigger a[j]} | 0 <= j < pos :: a[j] == b[j]
    requires forall j {:trigger a[j]} | pos <= j < pos + |ins| :: a[j] == ins[j - pos]
    requires forall j {:trigger a[j]} | pos + |ins| <= j < n + |ins| :: a[j] == b[j - |ins|]
    ensures a[..n + |ins|] == b[..n][..pos] + ins + b[..n][pos..]
  {
  }

  lemma KidPagesInsert(rs: seq<Rid>, i: nat, r: Rid)
    requires i <= |rs|
    ensures KidPages(InsertAt(rs, i, r)) == InsertAt(KidPages(rs), i, r.pageNo)
  {
  }
}
