// Constants and records shared by the index modules.
module IxDefs {
  import opened KeyOrder

  const IX_NO_PAGE := -1
  const IX_LEAF_HEADER_PAGE := 1
  const IX_INIT_ROOT_PAGE := 2
  const IX_INIT_NUM_PAGES := 3

  type PageId = int

  datatype Rid = Rid(pageNo: PageId, slotNo: int)

  /** A position in the index: slot slotNo of leaf page pageNo. */
  datatype Iid = Iid(pageNo: PageId, slotNo: int)

  /** What one node page means: the keys in use and, in a leaf, one rid per key; in an internal node,
      one child page more than keys (only the page number of such a rid slot is ever read). */
  datatype Page = Page(parent: PageId, isLeaf: bool, prev: PageId, next: PageId,
                       keys: seq<Key>, rids: seq<Rid>, kids: seq<PageId>)

  datatype Option<+T> = None | Some(value: T)

  lemma Regroup<T>(a: seq<T>, b: seq<T>, c: seq<T>)
    ensures a + (b + c) == (a + b) + c
  {
  }

  function InsertAt<T>(s: seq<T>, i: nat, x: T): (r: seq<T>)
    requires i <= |s|
  {
    s[..i] + [x] + s[i..]
  }

  ghost predicate Sorted(ks: seq<Key>) {
    forall i, j | 0 <= i < j < |ks| :: Less(ks[i], ks[j])
  }

  /** The number of leading keys below k. */
  function LowerPos(ks: seq<Key>, k: Key): (r: nat)
    ensures r <= |ks|
    ensures forall i | 0 <= i < r :: Less(ks[i], k)
    ensures r < |ks| ==> !Less(ks[r], k)
  {
    LowerFrom(ks, k, 0)
  }

  function LowerFrom(ks: seq<Key>, k: Key, i: nat): (r: nat)
    requires i <= |ks|
    ensures i <= r <= |ks|
    ensures forall j | i <= j < r :: Less(ks[j], k)
    ensures r < |ks| ==> !Less(ks[r], k)
    decreases |ks| - i
  {
    if i == |ks| || !Less(ks[i], k) then i else LowerFrom(ks, k, i + 1)
  }

  /** The number of leading keys not above k. */
  function UpperPos(ks: seq<Key>, k: Key): (r: nat)
    ensures r <= |ks|
    ensures forall i | 0 <= i < r :: !Less(k, ks[i])
    ensures r < |ks| ==> Less(k, ks[r])
  {
    UpperFrom(ks, k, 0)
  }

  function UpperFrom(ks: seq<Key>, k: Key, i: nat): (r: nat)
    requires i <= |ks|
    ensures i <= r <= |ks|
    ensures forall j | i <= j < r :: !Less(k, ks[j])
    ensures r < |ks| ==> Less(k, ks[r])
    decreases |ks| - i
  {
    if i == |ks| || Less(k, ks[i]) then i else UpperFrom(ks, k, i + 1)
  }

  /** In a sorted node every key from LowerPos on is at least k, so k can only be stored there. */
  lemma LowerPosSorted(ks: seq<Key>, k: Key)
    requires Sorted(ks)
    ensures forall i | LowerPos(ks, k) <= i < |ks| :: !Less(ks[i], k)
    ensures k in ks <==> LowerPos(ks, k) < |ks| && ks[LowerPos(ks, k)] == k
  {
    Order();
  }

  lemma UpperPosUnique(ks: seq<Key>, k: Key, p: nat)
    requires p <= |ks|
    requires forall i | 0 <= i < p :: !Less(k, ks[i])
    requires p < |ks| ==> Less(k, ks[p])
    ensures p == UpperPos(ks, k)
  {
  }

  /** LowerPos is the only split of a sorted node into keys below k and keys not below k. */
  lemma LowerPosUnique(ks: seq<Key>, k: Key, p: nat)
    requires p <= |ks|
    requires forall i | 0 <= i < p :: Less(ks[i], k)
    requires p < |ks| ==> !Less(ks[p], k)
    ensures p == LowerPos(ks, k)
  {
  }

  /** Keeping a node sorted: the new key goes where LowerPos says. */
  lemma InsertSorted(ks: seq<Key>, k: Key)
    requires Sorted(ks) && k !in ks
    ensures Sorted(InsertAt(ks, LowerPos(ks, k), k))
  {
    Order();
    LowerPosSorted(ks, k);
  }
}
