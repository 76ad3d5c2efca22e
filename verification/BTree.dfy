// The page store of one index, what makes it a B+ tree, and what each step of an insertion keeps.
module BTree {
  import opened KeyOrder
  import opened IxDefs

  datatype Store = Store(pages: map<PageId, Page>, root: PageId, firstLeaf: PageId, lastLeaf: PageId, numPages: int)

  /** What a tree page is for: its level above the leaves and the open-ended key interval it serves. */
  datatype Info = Info(height: nat, lo: Option<Key>, hi: Option<Key>)

  /** The tree seen from above: the pages in the tree, and the leaves from left to right. */
  datatype Shape = Shape(info: map<PageId, Info>, leaves: seq<PageId>)

  /** How far an insertion has got: finished, one page possibly full, or a split page whose
      right half has no parent slot yet. */
  datatype Pending = Settled | Over(page: PageId) | Orphan(left: PageId, key: Key, right: PageId)

  // ----- keys against the interval of a page -----

  ghost predicate Above(k: Key, lo: Option<Key>) { lo.Some? ==> Less(lo.value, k) }
  ghost predicate Below(k: Key, hi: Option<Key>) { hi.Some? ==> Less(k, hi.value) }
  ghost predicate AtLeast(k: Key, lo: Option<Key>) { lo.Some? ==> !Less(k, lo.value) }
  ghost predicate AtMost(k: Key, hi: Option<Key>) { hi.Some? ==> !Less(hi.value, k) }

  /** The interval a search for k is in: a key equal to a separator belongs to the left child. */
  ghost predicate Routed(inf: Info, k: Key) { Above(k, inf.lo) && AtMost(k, inf.hi) }

  // ----- one page -----

  ghost predicate LeafOk(pg: Page, inf: Info) {
    && inf.height == 0 && |pg.rids| == |pg.keys| && pg.kids == []
    && (forall i | 0 <= i < |pg.keys| :: AtLeast(pg.keys[i], inf.lo) && AtMost(pg.keys[i], inf.hi))
    && (inf.lo.Some? ==> pg.keys != [] && pg.keys[0] == inf.lo.value)
  }

  ghost predicate InnerOk(pg: Page, inf: Info) {
    && inf.height > 0 && |pg.kids| == |pg.keys| + 1 && pg.keys != [] && pg.rids == []
    && (forall i | 0 <= i < |pg.keys| :: Above(pg.keys[i], inf.lo) && Below(pg.keys[i], inf.hi))
  }

  ghost predicate NodeOk(pg: Page, inf: Info) {
    Sorted(pg.keys) && if pg.isLeaf then LeafOk(pg, inf) else InnerOk(pg, inf)
  }

  /** get_min_size is max_size / 2: keys of a leaf, children of an internal node. */
  ghost predicate BigEnough(pg: Page, m: nat) {
    (if pg.isLeaf then |pg.keys| else |pg.kids|) >= m / 2
  }

  // ----- parent and child -----

  ghost function SlotLo(pg: Page, inf: Info, i: nat): Option<Key>
    requires i <= |pg.keys|
  {
    if i == 0 then inf.lo else Some(pg.keys[i - 1])
  }

  ghost function SlotHi(pg: Page, inf: Info, i: nat): Option<Key>
    requires i <= |pg.keys|
  {
    if i == |pg.keys| then inf.hi else Some(pg.keys[i])
  }

  /** Upper end of what page c still answers for: an orphaned right half is covered by its left half's slot. */
  ghost function SpanHi(info: map<PageId, Info>, pend: Pending, c: PageId): Option<Key>
    requires c in info
  {
    if pend.Orphan? && c == pend.left && pend.right in info then info[pend.right].hi else info[c].hi
  }

  ghost predicate ChildOk(pages: map<PageId, Page>, info: map<PageId, Info>, pend: Pending, p: PageId, i: nat)
    requires p in pages && p in info && i < |pages[p].kids| <= |pages[p].keys| + 1
  {
    var c := pages[p].kids[i];
    && c in pages && c in info
    && pages[c].parent == p
    && info[p].height == info[c].height + 1
    && info[c].lo == SlotLo(pages[p], info[p], i)
    && SpanHi(info, pend, c) == SlotHi(pages[p], info[p], i)
  }

  ghost predicate KidsOk(pages: map<PageId, Page>, info: map<PageId, Info>, pend: Pending, p: PageId)
    requires p in pages && p in info
  {
    |pages[p].kids| <= |pages[p].keys| + 1 &&
    forall i {:trigger ChildOk(pages, info, pend, p, i)} | 0 <= i < |pages[p].kids| :: ChildOk(pages, info, pend, p, i)
  }

  ghost predicate IsKid(pages: map<PageId, Page>, info: map<PageId, Info>, p: PageId, c: PageId) {
    p in pages && p in info && c in pages[p].kids
  }

  ghost predicate OrphanOk(st: Store, info: map<PageId, Info>, left: PageId, key: Key, right: PageId) {
    && left in info && right in info && left != right
    && left in st.pages && right in st.pages
    && st.pages[left].parent == st.pages[right].parent
    && info[left].height == info[right].height
    && info[left].hi == Some(key) && info[right].lo == Some(key)
    && Above(key, info[left].lo) && Below(key, info[right].hi)
    && right != st.root
    && forall p | p in info && p in st.pages :: right !in st.pages[p].kids
  }

  /** What the invariant asks of one page of the tree: its own keys and size, its children, its parent. */
  ghost predicate PageInv(st: Store, info: map<PageId, Info>, m: nat, pend: Pending, p: PageId)
    requires p in st.pages && p in info
  {
    && NodeOk(st.pages[p], info[p])
    && (|st.pages[p].keys| < m || (pend == Over(p) && |st.pages[p].keys| == m))
    && ((p == st.root && !(pend.Orphan? && p == pend.left)) || BigEnough(st.pages[p], m))
    && KidsOk(st.pages, info, pend, p)
    && (p == st.root || (pend.Orphan? && p == pend.right) || IsKid(st.pages, info, st.pages[p].parent, p))
  }

  ghost predicate DomainOk(st: Store, info: map<PageId, Info>) {
    && (forall p | p in st.pages :: 0 < p < st.numPages)
    && st.pages.Keys == info.Keys + {IX_LEAF_HEADER_PAGE} && IX_LEAF_HEADER_PAGE !in info
  }

  /** The root: no parent, the whole key range, nothing above it. */
  ghost predicate RootOk(st: Store, info: map<PageId, Info>, pend: Pending) {
    && st.root in info && st.root in st.pages && st.pages[st.root].parent == IX_NO_PAGE
    && info[st.root].lo == None && SpanHi(info, pend, st.root) == None
    && forall p | p in info :: info[p].height <= info[st.root].height
  }

  /** The tree invariant. Every clause is about one page or one parent slot. */
  ghost predicate TreeInv(st: Store, info: map<PageId, Info>, m: nat, pend: Pending) {
    && DomainOk(st, info)
    && RootOk(st, info, pend)
    && (forall p {:trigger PageInv(st, info, m, pend, p)} | p in info :: PageInv(st, info, m, pend, p))
    && (pend.Orphan? ==> OrphanOk(st, info, pend.left, pend.key, pend.right))
  }

  // ----- the leaf list -----

  ghost function NextOf(leaves: seq<PageId>, j: int): PageId
    requires 0 <= j < |leaves|
  {
    if j + 1 < |leaves| then leaves[j + 1] else IX_LEAF_HEADER_PAGE
  }

  ghost function PrevOf(leaves: seq<PageId>, j: int): PageId
    requires 0 <= j < |leaves|
  {
    if j > 0 then leaves[j - 1] else IX_LEAF_HEADER_PAGE
  }

  /** The j-th leaf, its two links, and its interval, which ends where the next one begins. */
  ghost predicate LinkOk(pages: map<PageId, Page>, info: map<PageId, Info>, leaves: seq<PageId>, j: nat)
    requires j < |leaves|
  {
    var p := leaves[j];
    && p in info && p in pages && pages[p].isLeaf
    && pages[p].next == NextOf(leaves, j) && pages[p].prev == PrevOf(leaves, j)
    && (j + 1 < |leaves| ==> leaves[j + 1] in info && info[p].hi.Some? && info[p].hi == info[leaves[j + 1]].lo)
  }

  /** The page that closes the leaf list into a circle. */
  ghost predicate HeaderOk(pages: map<PageId, Page>, info: map<PageId, Info>, leaves: seq<PageId>)
    requires leaves != []
  {
    && IX_LEAF_HEADER_PAGE in pages && IX_LEAF_HEADER_PAGE !in info
    && pages[IX_LEAF_HEADER_PAGE].isLeaf && pages[IX_LEAF_HEADER_PAGE].keys == []
    && pages[IX_LEAF_HEADER_PAGE].next == leaves[0]
    && pages[IX_LEAF_HEADER_PAGE].prev == leaves[|leaves| - 1]
  }

  ghost predicate Distinct(s: seq<PageId>) {
    forall i, j | 0 <= i < j < |s| :: s[i] != s[j]
  }

  /** The leaves in key order, leaving no gap between intervals, linked both ways. */
  ghost predicate ChainInv(pages: map<PageId, Page>, info: map<PageId, Info>, leaves: seq<PageId>) {
    && leaves != [] && Distinct(leaves)
    && (forall j {:trigger LinkOk(pages, info, leaves, j)} | 0 <= j < |leaves| :: LinkOk(pages, info, leaves, j))
    && (forall p | p in info && p in pages && pages[p].isLeaf :: p in leaves)
    && HeaderOk(pages, info, leaves)
    && leaves[0] in info && info[leaves[0]].lo == None
    && leaves[|leaves| - 1] in info && info[leaves[|leaves| - 1]].hi == None
  }

  // ----- what the index means -----

  datatype Entry = Entry(key: Key, rid: Rid)

  /** A leaf's pairs. */
  function PageEntries(pg: Page): seq<Entry> {
    Zip(pg.keys, pg.rids)
  }

  function Zip(ks: seq<Key>, rs: seq<Rid>): (r: seq<Entry>)
    ensures |ks| == |rs| ==> |r| == |ks|
    ensures |ks| == |rs| ==> forall i | 0 <= i < |r| :: r[i] == Entry(ks[i], rs[i])
  {
    if ks == [] || rs == [] then [] else [Entry(ks[0], rs[0])] + Zip(ks[1..], rs[1..])
  }

  /** The pairs of a run of leaves, left to right. */
  ghost function Entries(pages: map<PageId, Page>, leaves: seq<PageId>): seq<Entry> {
    if leaves == [] then [] else
      (if leaves[0] in pages then PageEntries(pages[leaves[0]]) else []) + Entries(pages, leaves[1..])
  }

  // ----- the steps of an insertion -----

  /** IxNodeHandle::insert when the key is not there yet. */
  function LeafInserted(pg: Page, k: Key, r: Rid): Page
    requires |pg.rids| == |pg.keys|
  {
    var pos := LowerPos(pg.keys, k);
    pg.(keys := InsertAt(pg.keys, pos, k), rids := InsertAt(pg.rids, pos, r))
  }

  /** split on a leaf page p: the upper half moves to a new page linked in right behind p. */
  function SplitLeaf(st: Store, p: PageId): Store
    requires p in st.pages && |st.pages[p].rids| == |st.pages[p].keys|
  {
    var pg := st.pages[p];
    var mid := (|pg.keys| + 1) / 2;
    var q := st.numPages;
    var right := Page(pg.parent, true, p, pg.next, pg.keys[mid..], pg.rids[mid..], []);
    var left := pg.(keys := pg.keys[..mid], rids := pg.rids[..mid], next := q);
    var pages1 := st.pages[q := right];
    if pg.next != IX_NO_PAGE then
      var pages2 := if pg.next in pages1 then pages1[pg.next := pages1[pg.next].(prev := q)] else pages1;
      st.(pages := pages2[p := left], numPages := q + 1)
    else
      st.(pages := pages1[p := left], numPages := q + 1, lastLeaf := q)
  }

  /** split on an internal page p: the key in the middle leaves the level, the children behind it change parent. */
  function SplitInner(st: Store, p: PageId): Store
    requires p in st.pages && st.pages[p].keys != [] && |st.pages[p].kids| == |st.pages[p].keys| + 1
  {
    SplitInnerAt(st, p, |st.pages[p].keys| / 2)
  }

  function SplitInnerAt(st: Store, p: PageId, mid: nat): Store
    requires p in st.pages && mid < |st.pages[p].keys| && |st.pages[p].kids| == |st.pages[p].keys| + 1
  {
    var pg := st.pages[p];
    var q := st.numPages;
    var right := Page(pg.parent, false, IX_NO_PAGE, IX_NO_PAGE, pg.keys[mid + 1..], [], pg.kids[mid + 1..]);
    var left := pg.(keys := pg.keys[..mid], kids := pg.kids[..mid + 1]);
    st.(pages := Adopt(st.pages[q := right][p := left], pg.kids[mid + 1..], q), numPages := q + 1)
  }

  /** maintain_child for each of kids. */
  function Adopt(pages: map<PageId, Page>, kids: seq<PageId>, q: PageId): map<PageId, Page> {
    map c | c in pages :: if c in kids then pages[c].(parent := q) else pages[c]
  }

  /** insert_pair: key and the child to its right. */
  function PairInserted(pg: Page, pos: nat, key: Key, c: PageId): Page
    requires pos <= |pg.keys| && |pg.kids| == |pg.keys| + 1
  {
    pg.(keys := InsertAt(pg.keys, pos, key), kids := InsertAt(pg.kids, pos + 1, c))
  }

  /** insert_into_parent when left is the root: a new root above both halves. */
  function NewRoot(st: Store, left: PageId, key: Key, right: PageId): Store
    requires left in st.pages && right in st.pages
  {
    var r := st.numPages;
    var pages1 := st.pages[r := Page(IX_NO_PAGE, false, IX_NO_PAGE, IX_NO_PAGE, [key], [], [left, right])];
    var pages2 := pages1[left := pages1[left].(parent := r)];
    st.(pages := pages2[right := pages2[right].(parent := r)], root := r, numPages := r + 1)
  }

  // ----- each step keeps the invariant -----

  lemma NotOver(st: Store, info: map<PageId, Info>, m: nat, p: PageId)
    requires TreeInv(st, info, m, Over(p)) && p in info && |st.pages[p].keys| < m
    ensures TreeInv(st, info, m, Settled)
  {
    forall q | q in info ensures PageInv(st, info, m, Settled, q) {
      assert PageInv(st, info, m, Over(p), q);
      forall i | 0 <= i < |st.pages[q].kids| ensures ChildOk(st.pages, info, Settled, q, i) {
        assert ChildOk(st.pages, info, Over(p), q, i);
      }
    }
  }

  lemma KidFacts(st: Store, info: map<PageId, Info>, m: nat, pend: Pending, y: PageId, c: PageId)
    requires TreeInv(st, info, m, pend) && y in info && c in st.pages[y].kids
    ensures c in info && c in st.pages && st.pages[c].parent == y && c != y && c != st.root && c != st.numPages
  {
    assert PageInv(st, info, m, pend, y);
    var i :| 0 <= i < |st.pages[y].kids| && st.pages[y].kids[i] == c;
    assert ChildOk(st.pages, info, pend, y, i);
  }

  lemma NewRootPage(st: Store, info: map<PageId, Info>, m: nat, left: PageId, key: Key, right: PageId, p: PageId)
    requires m >= 4 && TreeInv(st, info, m, Orphan(left, key, right)) && left == st.root && p in info
    ensures var st' := NewRoot(st, left, key, right);
      p in st'.pages &&
      PageInv(st', info[st.numPages := Info(info[left].height + 1, None, None)], m, Settled, p)
  {
    var st' := NewRoot(st, left, key, right);
    var r := st.numPages;
    var pend := Orphan(left, key, right);
    var info' := info[r := Info(info[left].height + 1, None, None)];
    assert PageInv(st, info, m, pend, p);
    forall i | 0 <= i < |st.pages[p].kids| ensures ChildOk(st'.pages, info', Settled, p, i) {
      assert ChildOk(st.pages, info, pend, p, i);
      assert st.pages[p].kids[i] in st.pages[p].kids;
    }
    if p == left || p == right { assert IsKid(st'.pages, info', r, p); }
  }

  lemma NewRootKeeps(st: Store, info: map<PageId, Info>, m: nat, left: PageId, key: Key, right: PageId)
    requires m >= 4 && TreeInv(st, info, m, Orphan(left, key, right)) && left == st.root
    ensures TreeInv(NewRoot(st, left, key, right),
                    info[st.numPages := Info(info[left].height + 1, None, None)], m, Settled)
  {
    var st' := NewRoot(st, left, key, right);
    var r := st.numPages;
    var info' := info[r := Info(info[left].height + 1, None, None)];
    assert DomainOk(st', info') && RootOk(st', info', Settled);
    forall p | p in info' ensures PageInv(st', info', m, Settled, p) {
      if p == r {
        assert ChildOk(st'.pages, info', Settled, r, 0);
        assert ChildOk(st'.pages, info', Settled, r, 1);
      } else {
        NewRootPage(st, info, m, left, key, right, p);
      }
    }
  }

  /** The slot insert_into_parent looks for by key is the slot of the page that was split. */
  lemma SplitPageSlot(st: Store, info: map<PageId, Info>, m: nat, left: PageId, key: Key, right: PageId)
    requires TreeInv(st, info, m, Orphan(left, key, right)) && left != st.root
    ensures var p := st.pages[left].parent;
      && p in info && p in st.pages && !st.pages[p].isLeaf
      && LowerPos(st.pages[p].keys, key) < |st.pages[p].kids|
      && st.pages[p].kids[LowerPos(st.pages[p].keys, key)] == left
      && key !in st.pages[p].keys
  {
    var pend := Orphan(left, key, right);
    var p := st.pages[left].parent;
    assert PageInv(st, info, m, pend, left);
    assert IsKid(st.pages, info, p, left);
    assert PageInv(st, info, m, pend, p);
    var pg := st.pages[p];
    var i :| 0 <= i < |pg.kids| && pg.kids[i] == left;
    assert ChildOk(st.pages, info, pend, p, i);
    assert i > 0 ==> Less(pg.keys[i - 1], key);
    assert i < |pg.keys| ==> Less(key, pg.keys[i]);
    forall j | 0 <= j < i ensures Less(pg.keys[j], key) {
      if j < i - 1 { LessOrder(pg.keys[j], pg.keys[i - 1], key); }
    }
    if i < |pg.keys| { LessOrder(key, pg.keys[i], key); }
    LowerPosUnique(pg.keys, key, i);
    LowerPosSorted(pg.keys, key);
    if i < |pg.keys| && pg.keys[i] == key { LessOrder(key, key, key); }
  }

  /** The store after insert_pair on the parent of left. */
  ghost function Linked(st: Store, left: PageId, key: Key, right: PageId): Store
    requires left in st.pages && st.pages[left].parent in st.pages
    requires var pg := st.pages[st.pages[left].parent]; |pg.kids| == |pg.keys| + 1
  {
    var p := st.pages[left].parent;
    st.(pages := st.pages[p := PairInserted(st.pages[p], LowerPos(st.pages[p].keys, key), key, right)])
  }

  /** The parent itself after insert_pair. */
  lemma LinkedParent(st: Store, info: map<PageId, Info>, m: nat, left: PageId, key: Key, right: PageId)
    requires m >= 4 && TreeInv(st, info, m, Orphan(left, key, right)) && left != st.root
    ensures var p := st.pages[left].parent;
      p in info && p in st.pages && |st.pages[p].kids| == |st.pages[p].keys| + 1 && !st.pages[p].isLeaf &&
      PageInv(Linked(st, left, key, right), info, m, Over(p), p)
  {
    var pend := Orphan(left, key, right);
    var p := st.pages[left].parent;
    SplitPageSlot(st, info, m, left, key, right);
    assert PageInv(st, info, m, pend, p) && PageInv(st, info, m, pend, left) && PageInv(st, info, m, pend, right);
    var pg := st.pages[p];
    var pos := LowerPos(pg.keys, key);
    var st' := Linked(st, left, key, right);
    var pg' := st'.pages[p];
    InsertSorted(pg.keys, key);
    assert ChildOk(st.pages, info, pend, p, pos);
    forall i | 0 <= i < |pg'.keys| ensures Above(pg'.keys[i], info[p].lo) && Below(pg'.keys[i], info[p].hi) {
      if i == pos {
        if info[p].lo.Some? && pos > 0 { LessOrder(info[p].lo.value, pg.keys[pos - 1], key); }
        if info[p].hi.Some? && pos < |pg.keys| { LessOrder(key, pg.keys[pos], info[p].hi.value); }
      }
    }
    forall i | 0 <= i < |pg'.kids| ensures ChildOk(st'.pages, info, Over(p), p, i) {
      InsertedChild(st, info, left, key, right, p, i);
    }
    if p != st.root { KidFacts(st, info, m, pend, st.pages[p].parent, p); }
  }

  lemma LinkedOther(st: Store, info: map<PageId, Info>, m: nat, left: PageId, key: Key, right: PageId, q: PageId)
    requires m >= 4 && TreeInv(st, info, m, Orphan(left, key, right)) && left != st.root
    requires q in info && q != st.pages[left].parent
    ensures var p := st.pages[left].parent;
      p in info && p in st.pages && |st.pages[p].kids| == |st.pages[p].keys| + 1 && !st.pages[p].isLeaf &&
      PageInv(Linked(st, left, key, right), info, m, Over(p), q)
  {
    var pend := Orphan(left, key, right);
    var p := st.pages[left].parent;
    SplitPageSlot(st, info, m, left, key, right);
    assert PageInv(st, info, m, pend, q) && PageInv(st, info, m, pend, p) && PageInv(st, info, m, pend, left);
    var st' := Linked(st, left, key, right);
    forall i | 0 <= i < |st.pages[q].kids| ensures ChildOk(st'.pages, info, Over(p), q, i) {
      assert ChildOk(st.pages, info, pend, q, i);
      assert st.pages[q].kids[i] in st.pages[q].kids;
    }
    var pos := LowerPos(st.pages[p].keys, key);
    if q == right {
      assert st'.pages[p].kids[pos + 1] == right;
    } else if q != st.root && st.pages[q].parent == p {
      InsertAtKeeps(st.pages[p].kids, pos + 1, right, q);
    }
  }

  lemma InsertPairKeeps(st: Store, info: map<PageId, Info>, m: nat, left: PageId, key: Key, right: PageId)
    requires m >= 4 && TreeInv(st, info, m, Orphan(left, key, right)) && left != st.root
    ensures var p := st.pages[left].parent;
      p in info && |st.pages[p].kids| == |st.pages[p].keys| + 1 && !st.pages[p].isLeaf &&
      TreeInv(Linked(st, left, key, right), info, m, Over(p))
  {
    var p := st.pages[left].parent;
    LinkedParent(st, info, m, left, key, right);
    var st' := Linked(st, left, key, right);
    assert DomainOk(st', info) && RootOk(st', info, Over(p));
    forall q | q in info ensures PageInv(st', info, m, Over(p), q) {
      if q != p { LinkedOther(st, info, m, left, key, right, q); }
    }
  }

  lemma InsertAtKeeps<T>(s: seq<T>, i: nat, x: T, y: T)
    requires i <= |s| && y in s
    ensures y in InsertAt(s, i, x)
  {
    assert s == s[..i] + s[i..];
  }

  /** The parent's slots after insert_pair: left keeps its slot, right follows, the rest moves up by one. */
  lemma InsertedChild(st: Store, info: map<PageId, Info>, left: PageId, key: Key, right: PageId, p: PageId, i: nat)
    requires OrphanOk(st, info, left, key, right) && p == st.pages[left].parent
    requires p in info && p in st.pages && InnerOk(st.pages[p], info[p])
    requires KidsOk(st.pages, info, Orphan(left, key, right), p)
    requires LowerPos(st.pages[p].keys, key) < |st.pages[p].kids|
    requires st.pages[p].kids[LowerPos(st.pages[p].keys, key)] == left && key !in st.pages[p].keys
    requires Sorted(st.pages[p].keys)
    requires i <= |st.pages[p].kids|
    requires right != p && left != p
    ensures ChildOk(st.pages[p := PairInserted(st.pages[p], LowerPos(st.pages[p].keys, key), key, right)],
                    info, Over(p), p, i)
  {
    var pend := Orphan(left, key, right);
    var pg := st.pages[p];
    var pos := LowerPos(pg.keys, key);
    var pg' := PairInserted(pg, pos, key, right);
    assert ChildOk(st.pages, info, pend, p, pos);
    if i < pos {
      assert ChildOk(st.pages, info, pend, p, i);
      assert pg'.kids[i] == pg.kids[i];
      assert SlotHi(pg, info[p], i) == SlotHi(pg', info[p], i);
      DistinctKids(st, info, pend, p, i, pos);
    } else if i > pos + 1 {
      assert ChildOk(st.pages, info, pend, p, i - 1);
      assert pg'.kids[i] == pg.kids[i - 1];
      DistinctKids(st, info, pend, p, pos, i - 1);
    }
  }

  /** Two slots of one page never lead to the same child. */
  lemma DistinctKids(st: Store, info: map<PageId, Info>, pend: Pending, p: PageId, i: nat, j: nat)
    requires p in info && p in st.pages && InnerOk(st.pages[p], info[p]) && Sorted(st.pages[p].keys)
    requires KidsOk(st.pages, info, pend, p)
    requires i < j < |st.pages[p].kids|
    ensures st.pages[p].kids[i] != st.pages[p].kids[j]
  {
    Order();
    assert ChildOk(st.pages, info, pend, p, i) && ChildOk(st.pages, info, pend, p, j);
  }

  /** The intervals after a split of p at key: p below, the new page q above. */
  function SplitInfo(info: map<PageId, Info>, p: PageId, key: Key, q: PageId): map<PageId, Info>
    requires p in info
  {
    info[p := info[p].(hi := Some(key))][q := info[p].(lo := Some(key))]
  }

  /** What the two lemmas on the halves of a split need of it. */
  ghost predicate CanSplitInner(st: Store, info: map<PageId, Info>, m: nat, p: PageId, mid: nat) {
    && TreeInv(st, info, m, Over(p)) && p in info && InnerOk(st.pages[p], info[p])
    && 1 <= mid < |st.pages[p].keys| - 1
    && m / 2 <= mid + 1 && m / 2 <= |st.pages[p].keys| - mid && |st.pages[p].keys| == m
  }

  /** What SplitInner leaves in each page. */
  lemma SplitInnerPages(st: Store, info: map<PageId, Info>, m: nat, p: PageId, mid: nat)
    requires CanSplitInner(st, info, m, p, mid)
    ensures var st', q, moved := SplitInnerAt(st, p, mid), st.numPages, st.pages[p].kids[mid + 1..];
      && st'.pages.Keys == st.pages.Keys + {q}
      && (forall x | x in st.pages && x != p ::
            st'.pages[x] == if x in moved then st.pages[x].(parent := q) else st.pages[x])
      && st'.pages[p] == st.pages[p].(keys := st.pages[p].keys[..mid], kids := st.pages[p].kids[..mid + 1])
      && st'.pages[q] == Page(st.pages[p].parent, false, IX_NO_PAGE, IX_NO_PAGE, st.pages[p].keys[mid + 1..], [], moved)
  {
    var moved := st.pages[p].kids[mid + 1..];
    forall c | c in moved ensures c != p && c != st.numPages {
      KidFacts(st, info, m, Over(p), p, c);
    }
  }

  /** Slot i of the left half, and the child behind it. */
  lemma SplitInnerLeftChild(st: Store, info: map<PageId, Info>, m: nat, p: PageId, mid: nat, i: nat)
    requires CanSplitInner(st, info, m, p, mid) && i <= mid
    ensures var key := st.pages[p].keys[mid];
      var st', info' := SplitInnerAt(st, p, mid), SplitInfo(info, p, key, st.numPages);
      p in st'.pages && p in info' && i < |st'.pages[p].kids| == |st'.pages[p].keys| + 1 &&
      ChildOk(st'.pages, info', Orphan(p, key, st.numPages), p, i)
  {
    assert PageInv(st, info, m, Over(p), p);
    SplitInnerPages(st, info, m, p, mid);
    var pg := st.pages[p];
    var moved := pg.kids[mid + 1..];
    assert ChildOk(st.pages, info, Over(p), p, i);
    KidFacts(st, info, m, Over(p), p, pg.kids[i]);
    forall j | 0 <= j < |moved| ensures moved[j] != pg.kids[i] { DistinctKids(st, info, Over(p), p, i, mid + 1 + j); }
  }

  /** Slot i of the right half, and the child behind it. */
  lemma SplitInnerRightChild(st: Store, info: map<PageId, Info>, m: nat, p: PageId, mid: nat, i: nat)
    requires CanSplitInner(st, info, m, p, mid) && i < |st.pages[p].keys| - mid
    ensures var key, q := st.pages[p].keys[mid], st.numPages;
      var st', info' := SplitInnerAt(st, p, mid), SplitInfo(info, p, key, q);
      q in st'.pages && q in info' && i < |st'.pages[q].kids| == |st'.pages[q].keys| + 1 &&
      ChildOk(st'.pages, info', Orphan(p, key, q), q, i)
  {
    SplitInnerPages(st, info, m, p, mid);
    var pg := st.pages[p];
    var c := pg.kids[mid + 1 + i];
    assert PageInv(st, info, m, Over(p), p);
    assert ChildOk(st.pages, info, Over(p), p, mid + 1 + i);
    KidFacts(st, info, m, Over(p), p, c);
    assert pg.kids[mid + 1..][i] == c;
  }

  lemma SplitInnerHalf(st: Store, info: map<PageId, Info>, m: nat, p: PageId, mid: nat, x: PageId)
    requires CanSplitInner(st, info, m, p, mid)
    requires x == p || x == st.numPages
    ensures var key := st.pages[p].keys[mid];
      var st', info' := SplitInnerAt(st, p, mid), SplitInfo(info, p, key, st.numPages);
      x in st'.pages && x in info' && PageInv(st', info', m, Orphan(p, key, st.numPages), x)
  {
    assert PageInv(st, info, m, Over(p), p);
    SplitInnerPages(st, info, m, p, mid);
    var pg := st.pages[p];
    var key := pg.keys[mid];
    var q := st.numPages;
    var st' := SplitInnerAt(st, p, mid);
    var info' := SplitInfo(info, p, key, q);
    var pend := Orphan(p, key, q);
    var moved := pg.kids[mid + 1..];
    forall i | 0 <= i < |st'.pages[x].kids| ensures ChildOk(st'.pages, info', pend, x, i) {
      if x == p { SplitInnerLeftChild(st, info, m, p, mid, i); } else { SplitInnerRightChild(st, info, m, p, mid, i); }
    }
    assert NodeOk(st'.pages[x], info'[x]) && BigEnough(st'.pages[x], m);
    if x == p && p != st.root {
      KidAfterSplit(st, info, m, p, mid, p);
    }
  }

  lemma SplitInnerOtherChild(st: Store, info: map<PageId, Info>, m: nat, p: PageId, mid: nat, x: PageId, i: nat)
    requires CanSplitInner(st, info, m, p, mid)
    requires x in info && x != p && i < |st.pages[x].kids|
    ensures var key := st.pages[p].keys[mid];
      var st', info' := SplitInnerAt(st, p, mid), SplitInfo(info, p, key, st.numPages);
      x in st'.pages && x in info' && i < |st'.pages[x].kids| <= |st'.pages[x].keys| + 1 &&
      ChildOk(st'.pages, info', Orphan(p, key, st.numPages), x, i)
  {
    assert PageInv(st, info, m, Over(p), x);
    SplitInnerPages(st, info, m, p, mid);
    var c := st.pages[x].kids[i];
    assert ChildOk(st.pages, info, Over(p), x, i);
    KidFacts(st, info, m, Over(p), x, c);
    if c in st.pages[p].kids[mid + 1..] { KidFacts(st, info, m, Over(p), p, c); }
  }

  lemma SplitInnerOther(st: Store, info: map<PageId, Info>, m: nat, p: PageId, mid: nat, x: PageId)
    requires CanSplitInner(st, info, m, p, mid)
    requires x in info && x != p
    ensures var key := st.pages[p].keys[mid];
      var st', info' := SplitInnerAt(st, p, mid), SplitInfo(info, p, key, st.numPages);
      x in st'.pages && x in info' && PageInv(st', info', m, Orphan(p, key, st.numPages), x)
  {
    assert PageInv(st, info, m, Over(p), x);
    SplitInnerPages(st, info, m, p, mid);
    forall i | 0 <= i < |st.pages[x].kids|
      ensures var key := st.pages[p].keys[mid];
        ChildOk(SplitInnerAt(st, p, mid).pages, SplitInfo(info, p, key, st.numPages), Orphan(p, key, st.numPages), x, i)
    {
      SplitInnerOtherChild(st, info, m, p, mid, x, i);
    }
    if x != st.root {
      KidAfterSplit(st, info, m, p, mid, x);
    }
  }

  /** Every page still hangs under the parent it names. */
  lemma KidAfterSplit(st: Store, info: map<PageId, Info>, m: nat, p: PageId, mid: nat, x: PageId)
    requires CanSplitInner(st, info, m, p, mid)
    requires x in info && x != st.root
    ensures var key := st.pages[p].keys[mid];
      var st', info' := SplitInnerAt(st, p, mid), SplitInfo(info, p, key, st.numPages);
      x in st'.pages && IsKid(st'.pages, info', st'.pages[x].parent, x)
  {
    assert PageInv(st, info, m, Over(p), x);
    SplitInnerPages(st, info, m, p, mid);
    var y := st.pages[x].parent;
    assert IsKid(st.pages, info, y, x);
    var kids := st.pages[p].kids;
    assert kids == kids[..mid + 1] + kids[mid + 1..];
    KidFacts(st, info, m, Over(p), y, x);
    if x in kids[mid + 1..] { KidFacts(st, info, m, Over(p), p, x); }
  }

  lemma SplitInnerKeeps(st: Store, info: map<PageId, Info>, m: nat, p: PageId)
    requires m >= 4 && TreeInv(st, info, m, Over(p)) && p in info
    requires !st.pages[p].isLeaf && |st.pages[p].keys| == m
    ensures |st.pages[p].kids| == m + 1
    ensures var key := st.pages[p].keys[m / 2];
      TreeInv(SplitInner(st, p), SplitInfo(info, p, key, st.numPages), m, Orphan(p, key, st.numPages))
  {
    assert PageInv(st, info, m, Over(p), p);
    var mid := m / 2;
    var key := st.pages[p].keys[mid];
    var q := st.numPages;
    var st' := SplitInnerAt(st, p, mid);
    var info' := SplitInfo(info, p, key, q);
    SplitInnerPages(st, info, m, p, mid);
    if st.root in st.pages[p].kids[mid + 1..] { KidFacts(st, info, m, Over(p), p, st.root); }
    assert DomainOk(st', info') && RootOk(st', info', Orphan(p, key, q));
    forall x | x in info' ensures PageInv(st', info', m, Orphan(p, key, q), x) {
      if x == p || x == q {
        SplitInnerHalf(st, info, m, p, mid, x);
      } else {
        SplitInnerOther(st, info, m, p, mid, x);
      }
    }
    forall x | x in info' ensures q !in st'.pages[x].kids {
      var y := if x == q then p else x;
      assert forall c | c in st'.pages[x].kids :: c in st.pages[y].kids;
      forall c | c in st.pages[y].kids ensures c != q { KidFacts(st, info, m, Over(p), y, c); }
    }
    if p in st.pages[p].kids[mid + 1..] { KidFacts(st, info, m, Over(p), p, p); }
  }

  // ----- leaf steps -----

  lemma LeafInsertKeeps(st: Store, info: map<PageId, Info>, m: nat, p: PageId, k: Key, r: Rid)
    requires TreeInv(st, info, m, Settled) && p in info && st.pages[p].isLeaf
    requires Routed(info[p], k) && k !in st.pages[p].keys
    ensures |st.pages[p].rids| == |st.pages[p].keys|
    ensures TreeInv(st.(pages := st.pages[p := LeafInserted(st.pages[p], k, r)]), info, m, Over(p))
  {
    assert PageInv(st, info, m, Settled, p);
    var pg := st.pages[p];
    var pos := LowerPos(pg.keys, k);
    var st' := st.(pages := st.pages[p := LeafInserted(pg, k, r)]);
    InsertSorted(pg.keys, k);
    LowerPosSorted(pg.keys, k);
    assert LeafOk(st'.pages[p], info[p]) by { Order(); }
    assert DomainOk(st', info) && RootOk(st', info, Over(p));
    forall x | x in info ensures PageInv(st', info, m, Over(p), x) {
      assert PageInv(st, info, m, Settled, x);
      forall i | 0 <= i < |st'.pages[x].kids| ensures ChildOk(st'.pages, info, Over(p), x, i) {
        assert ChildOk(st.pages, info, Settled, x, i);
      }
    }
  }

  /** A full leaf p, the j-th of the leaf list. */
  ghost predicate FullLeaf(st: Store, info: map<PageId, Info>, m: nat, p: PageId, leaves: seq<PageId>, j: nat) {
    && TreeInv(st, info, m, Over(p)) && p in info && st.pages[p].isLeaf
    && |st.pages[p].keys| == m && |st.pages[p].rids| == m
    && ChainInv(st.pages, info, leaves) && j < |leaves| && leaves[j] == p
  }

  /** st' is st with leaf p cut at mid and its upper part in the new page st.numPages, linked in behind p. */
  ghost predicate LeafCut(st: Store, st': Store, p: PageId, mid: nat) {
    var q := st.numPages;
    && p in st.pages && q !in st.pages && mid < |st.pages[p].keys| == |st.pages[p].rids|
    && var pg := st.pages[p];
    && pg.next in st.pages && pg.next != p
    && st' == st.(pages := st'.pages, numPages := q + 1)
    && st'.pages.Keys == st.pages.Keys + {q}
    && (forall x | x in st.pages && x != p ::
          st'.pages[x] == if x == pg.next then st.pages[x].(prev := q) else st.pages[x])
    && st'.pages[p] == pg.(keys := pg.keys[..mid], rids := pg.rids[..mid], next := q)
    && st'.pages[q] == Page(pg.parent, true, p, pg.next, pg.keys[mid..], pg.rids[mid..], [])
  }

  lemma SplitLeafCuts(st: Store, info: map<PageId, Info>, m: nat, p: PageId, leaves: seq<PageId>, j: nat)
    requires m >= 4 && FullLeaf(st, info, m, p, leaves, j)
    ensures LeafCut(st, SplitLeaf(st, p), p, (m + 1) / 2)
  {
    assert LinkOk(st.pages, info, leaves, j);
    if j + 1 < |leaves| { assert LinkOk(st.pages, info, leaves, j + 1); }
  }

  /** The separator a leaf split sends up is strictly inside the interval of the leaf. */
  lemma LeafSeparator(pg: Page, inf: Info, mid: nat)
    requires Sorted(pg.keys) && LeafOk(pg, inf) && 0 < mid < |pg.keys| - 1
    ensures Above(pg.keys[mid], inf.lo) && Below(pg.keys[mid], inf.hi)
  {
    if inf.lo.Some? { LessOrder(inf.lo.value, pg.keys[mid], inf.lo.value); }
    if inf.hi.Some? {
      LessOrder(pg.keys[mid], pg.keys[mid + 1], inf.hi.value);
      LessOrder(inf.hi.value, pg.keys[mid + 1], inf.hi.value);
    }
  }

  lemma SplitLeafHalves(pg: Page, inf: Info, mid: nat)
    requires Sorted(pg.keys) && LeafOk(pg, inf) && 0 < mid < |pg.keys| && pg.isLeaf
    ensures LeafOk(pg.(keys := pg.keys[..mid], rids := pg.rids[..mid]), inf.(hi := Some(pg.keys[mid])))
    ensures LeafOk(pg.(keys := pg.keys[mid..], rids := pg.rids[mid..]), inf.(lo := Some(pg.keys[mid])))
  {
    Order();
  }

  lemma SplitLeafTree(st: Store, st': Store, info: map<PageId, Info>, m: nat, p: PageId, mid: nat)
    requires m / 2 <= mid < m - 1 && m / 2 <= m - mid && 0 < mid && LeafCut(st, st', p, mid)
    requires TreeInv(st, info, m, Over(p)) && p in info && st.pages[p].isLeaf && |st.pages[p].keys| == m
    ensures TreeInv(st', SplitInfo(info, p, st.pages[p].keys[mid], st.numPages), m,
                    Orphan(p, st.pages[p].keys[mid], st.numPages))
  {
    assert PageInv(st, info, m, Over(p), p);
    var key, q := st.pages[p].keys[mid], st.numPages;
    var info' := SplitInfo(info, p, key, q);
    var pend := Orphan(p, key, q);
    LeafSeparator(st.pages[p], info[p], mid);
    SplitLeafHalves(st.pages[p], info[p], mid);
    assert DomainOk(st', info') && RootOk(st', info', pend);
    forall x | x in info' ensures PageInv(st', info', m, pend, x) {
      if x == q {
        assert Sorted(st'.pages[q].keys);
      } else {
        SplitLeafPage(st, st', info, m, p, mid, x);
      }
    }
    forall x | x in info' ensures q !in st'.pages[x].kids {
      if x != q && q in st'.pages[x].kids { KidFacts(st, info, m, Over(p), x, q); }
    }
  }

  lemma SplitLeafPage(st: Store, st': Store, info: map<PageId, Info>, m: nat, p: PageId, mid: nat, x: PageId)
    requires m / 2 <= mid < m - 1 && m / 2 <= m - mid && 0 < mid && LeafCut(st, st', p, mid)
    requires TreeInv(st, info, m, Over(p)) && p in info && st.pages[p].isLeaf && |st.pages[p].keys| == m
    requires x in info
    ensures var key, q := st.pages[p].keys[mid], st.numPages;
      q !in info && x in st'.pages && PageInv(st', SplitInfo(info, p, key, q), m, Orphan(p, key, q), x)
  {
    var key, q := st.pages[p].keys[mid], st.numPages;
    var info' := SplitInfo(info, p, key, q);
    assert PageInv(st, info, m, Over(p), x) && q !in st.pages;
    assert x != p ==> st'.pages[x] == st.pages[x].(prev := st'.pages[x].prev) && info'[x] == info[x];
    if x == p { SplitLeafHalves(st.pages[p], info[p], mid); }
    assert Sorted(st'.pages[x].keys);
    assert NodeOk(st'.pages[x], info'[x]);
    forall i | 0 <= i < |st'.pages[x].kids| ensures ChildOk(st'.pages, info', Orphan(p, key, q), x, i) {
      SplitLeafKid(st, st', info, m, p, mid, x, i);
    }
    if x != st.root {
      assert IsKid(st.pages, info, st.pages[x].parent, x);
      assert st'.pages[st.pages[x].parent].kids == st.pages[st.pages[x].parent].kids;
    }
  }

  lemma SplitLeafKid(st: Store, st': Store, info: map<PageId, Info>, m: nat, p: PageId, mid: nat, x: PageId, i: nat)
    requires LeafCut(st, st', p, mid)
    requires TreeInv(st, info, m, Over(p)) && p in info && st.pages[p].isLeaf
    requires x in info && i < |st.pages[x].kids|
    ensures var key, q := st.pages[p].keys[mid], st.numPages;
      q !in info && x in st'.pages && i < |st'.pages[x].kids| <= |st'.pages[x].keys| + 1 &&
      ChildOk(st'.pages, SplitInfo(info, p, key, q), Orphan(p, key, q), x, i)
  {
    assert PageInv(st, info, m, Over(p), x) && PageInv(st, info, m, Over(p), p);
    assert ChildOk(st.pages, info, Over(p), x, i);
    KidFacts(st, info, m, Over(p), x, st.pages[x].kids[i]);
  }

  lemma SplitLeafLink(st: Store, st': Store, info: map<PageId, Info>, p: PageId, mid: nat, leaves: seq<PageId>, j: nat,
                      i: nat)
    requires LeafCut(st, st', p, mid) && ChainInv(st.pages, info, leaves) && j < |leaves| && leaves[j] == p
    requires p in info && st.numPages !in info && i < |leaves| + 1
    ensures LinkOk(st'.pages, SplitInfo(info, p, st.pages[p].keys[mid], st.numPages),
                   InsertAt(leaves, j + 1, st.numPages), i)
  {
    var leaves' := InsertAt(leaves, j + 1, st.numPages);
    assert LinkOk(st.pages, info, leaves, j);
    var i0 := if i <= j then i else i - 1;
    assert i != j + 1 ==> leaves'[i] == leaves[i0];
    assert LinkOk(st.pages, info, leaves, i0);
    assert i + 1 < |leaves'| && i != j ==> leaves'[i + 1] == leaves[i0 + 1];
    if i0 + 1 < |leaves| { assert LinkOk(st.pages, info, leaves, i0 + 1); }
  }

  lemma SplitLeafChain(st: Store, st': Store, info: map<PageId, Info>, p: PageId, mid: nat, leaves: seq<PageId>, j: nat)
    requires LeafCut(st, st', p, mid) && ChainInv(st.pages, info, leaves) && j < |leaves| && leaves[j] == p
    requires info.Keys + {IX_LEAF_HEADER_PAGE} == st.pages.Keys
    ensures ChainInv(st'.pages, SplitInfo(info, p, st.pages[p].keys[mid], st.numPages),
                     InsertAt(leaves, j + 1, st.numPages))
  {
    var q := st.numPages;
    var info' := SplitInfo(info, p, st.pages[p].keys[mid], q);
    var leaves' := InsertAt(leaves, j + 1, q);
    forall i | 0 <= i < |leaves'| ensures LinkOk(st'.pages, info', leaves', i) {
      SplitLeafLink(st, st', info, p, mid, leaves, j, i);
    }
    assert Distinct(leaves') by { SplitLeafFresh(st, info, leaves, j); }
    SplitLeafMembers(st, st', info, p, mid, leaves, j);
    assert LinkOk(st.pages, info, leaves, j);
    assert leaves'[0] == leaves[0] && (j + 1 < |leaves| ==> leaves'[|leaves|] == leaves[|leaves| - 1]);
  }

  /** The new page is no leaf yet. */
  lemma SplitLeafFresh(st: Store, info: map<PageId, Info>, leaves: seq<PageId>, j: nat)
    requires ChainInv(st.pages, info, leaves) && j < |leaves| && st.numPages !in st.pages
    ensures Distinct(InsertAt(leaves, j + 1, st.numPages))
  {
    forall i | 0 <= i < |leaves| ensures leaves[i] != st.numPages { assert LinkOk(st.pages, info, leaves, i); }
  }

  /** No leaf is missing from the new list. */
  lemma SplitLeafMembers(st: Store, st': Store, info: map<PageId, Info>, p: PageId, mid: nat, leaves: seq<PageId>,
                         j: nat)
    requires LeafCut(st, st', p, mid) && ChainInv(st.pages, info, leaves) && j < |leaves| && leaves[j] == p && p in info
    ensures forall x |
      x in SplitInfo(info, p, st.pages[p].keys[mid], st.numPages) && x in st'.pages && st'.pages[x].isLeaf ::
      x in InsertAt(leaves, j + 1, st.numPages)
  {
    var q := st.numPages;
    var leaves' := InsertAt(leaves, j + 1, q);
    forall x | x in SplitInfo(info, p, st.pages[p].keys[mid], q) && x in st'.pages && st'.pages[x].isLeaf
      ensures x in leaves'
    {
      if x == q { assert leaves'[j + 1] == q; } else { InsertAtKeeps(leaves, j + 1, q, x); }
    }
  }

  // ----- entries -----

  lemma {:induction false} EntriesConcat(pages: map<PageId, Page>, a: seq<PageId>, b: seq<PageId>)
    ensures Entries(pages, a + b) == Entries(pages, a) + Entries(pages, b)
  {
    if a == [] {
      assert a + b == b;
    } else {
      assert (a + b)[1..] == a[1..] + b;
      EntriesConcat(pages, a[1..], b);
    }
  }

  /** Entries depend only on the keys and rids of the leaves. */
  lemma {:induction false} EntriesFrame(pages: map<PageId, Page>, pages': map<PageId, Page>, leaves: seq<PageId>)
    requires forall i | 0 <= i < |leaves| ::
      && leaves[i] in pages && leaves[i] in pages'
      && pages[leaves[i]].keys == pages'[leaves[i]].keys && pages[leaves[i]].rids == pages'[leaves[i]].rids
    ensures Entries(pages, leaves) == Entries(pages', leaves)
  {
    if leaves != [] {
      EntriesFrame(pages, pages', leaves[1..]);
    }
  }

  /** The entries around leaf j. */
  lemma EntriesAround(pages: map<PageId, Page>, leaves: seq<PageId>, j: nat)
    requires j < |leaves| && leaves[j] in pages
    ensures Entries(pages, leaves)
         == Entries(pages, leaves[..j]) + PageEntries(pages[leaves[j]]) + Entries(pages, leaves[j + 1..])
  {
    assert leaves == leaves[..j] + ([leaves[j]] + leaves[j + 1..]);
    EntriesConcat(pages, leaves[..j], [leaves[j]] + leaves[j + 1..]);
    assert ([leaves[j]] + leaves[j + 1..])[1..] == leaves[j + 1..];
  }

  /** The leaves around p are not touched by a split of p. */
  lemma SplitLeafRest(st: Store, st': Store, info: map<PageId, Info>, p: PageId, mid: nat, leaves: seq<PageId>, j: nat)
    requires LeafCut(st, st', p, mid) && ChainInv(st.pages, info, leaves) && j < |leaves| && leaves[j] == p
    ensures Entries(st'.pages, leaves[..j]) == Entries(st.pages, leaves[..j])
    ensures Entries(st'.pages, leaves[j + 1..]) == Entries(st.pages, leaves[j + 1..])
  {
    forall i | 0 <= i < |leaves| && i != j ensures leaves[i] in st.pages && leaves[i] != p {
      assert LinkOk(st.pages, info, leaves, i);
    }
    EntriesFrame(st.pages, st'.pages, leaves[..j]);
    EntriesFrame(st.pages, st'.pages, leaves[j + 1..]);
  }

  lemma EntriesTwo(pages: map<PageId, Page>, a: seq<PageId>, p: PageId, q: PageId, b: seq<PageId>)
    requires p in pages && q in pages
    ensures Entries(pages, a + [p, q] + b)
         == Entries(pages, a) + (PageEntries(pages[p]) + PageEntries(pages[q])) + Entries(pages, b)
  {
    EntriesConcat(pages, a + [p, q], b);
    EntriesConcat(pages, a, [p, q]);
    assert [p, q][1..] == [q] && [q][1..] == [];
    assert Entries(pages, [q]) == PageEntries(pages[q]);
  }

  lemma InsertAfter(s: seq<PageId>, j: nat, q: PageId)
    requires j < |s|
    ensures InsertAt(s, j + 1, q) == s[..j] + [s[j], q] + s[j + 1..]
  {
    assert s[..j + 1] == s[..j] + [s[j]];
  }

  lemma SplitLeafEntries(st: Store, st': Store, info: map<PageId, Info>, p: PageId, mid: nat, leaves: seq<PageId>,
                         j: nat)
    requires LeafCut(st, st', p, mid) && ChainInv(st.pages, info, leaves) && j < |leaves| && leaves[j] == p
    ensures Entries(st'.pages, InsertAt(leaves, j + 1, st.numPages)) == Entries(st.pages, leaves)
  {
    SplitLeafRest(st, st', info, p, mid, leaves, j);
    PageEntriesCut(st.pages[p], st'.pages[p], st'.pages[st.numPages], mid);
    EntriesAround(st.pages, leaves, j);
    EntriesTwo(st'.pages, leaves[..j], p, st.numPages, leaves[j + 1..]);
    InsertAfter(leaves, j, st.numPages);
  }

  lemma PageEntriesCut(pg: Page, left: Page, right: Page, mid: nat)
    requires |pg.rids| == |pg.keys| && mid <= |pg.keys|
    requires left.keys == pg.keys[..mid] && left.rids == pg.rids[..mid]
    requires right.keys == pg.keys[mid..] && right.rids == pg.rids[mid..]
    ensures PageEntries(pg) == PageEntries(left) + PageEntries(right)
  {
  }

  // ----- the steps above the leaves leave the leaf list alone -----

  /** The two stores agree on the leaves, up to their parent pointers. */
  ghost predicate SameLeaves(pages: map<PageId, Page>, info: map<PageId, Info>,
                             pages': map<PageId, Page>, info': map<PageId, Info>, leaves: seq<PageId>) {
    && (forall j {:trigger leaves[j]} | 0 <= j < |leaves| ::
          var p := leaves[j];
          && p in pages && p in pages' && p in info && p in info'
          && info'[p] == info[p] && pages'[p] == pages[p].(parent := pages'[p].parent))
    && (forall p | p in info' && p in pages' && pages'[p].isLeaf :: p in leaves)
    && IX_LEAF_HEADER_PAGE !in info' && IX_LEAF_HEADER_PAGE in pages && IX_LEAF_HEADER_PAGE in pages'
    && pages'[IX_LEAF_HEADER_PAGE] == pages[IX_LEAF_HEADER_PAGE]
  }

  lemma SameLeavesKeeps(pages: map<PageId, Page>, info: map<PageId, Info>,
                        pages': map<PageId, Page>, info': map<PageId, Info>, leaves: seq<PageId>)
    requires ChainInv(pages, info, leaves) && SameLeaves(pages, info, pages', info', leaves)
    ensures ChainInv(pages', info', leaves) && Entries(pages', leaves) == Entries(pages, leaves)
  {
    forall j | 0 <= j < |leaves| ensures LinkOk(pages', info', leaves, j) {
      assert LinkOk(pages, info, leaves, j);
      if j + 1 < |leaves| { assert leaves[j + 1] in info'; }
    }
    assert leaves[0] in info' && leaves[|leaves| - 1] in info';
    EntriesFrame(pages, pages', leaves);
  }

  lemma ChainLeaf(pages: map<PageId, Page>, info: map<PageId, Info>, leaves: seq<PageId>, j: nat)
    requires ChainInv(pages, info, leaves) && j < |leaves|
    ensures leaves[j] in info && leaves[j] in pages && pages[leaves[j]].isLeaf
  {
    assert LinkOk(pages, info, leaves, j);
  }

  lemma NewRootLeaves(st: Store, info: map<PageId, Info>, m: nat, left: PageId, key: Key, right: PageId,
                      leaves: seq<PageId>)
    requires TreeInv(st, info, m, Orphan(left, key, right)) && ChainInv(st.pages, info, leaves)
    ensures var st' := NewRoot(st, left, key, right);
      && ChainInv(st'.pages, info[st.numPages := Info(info[left].height + 1, None, None)], leaves)
      && Entries(st'.pages, leaves) == Entries(st.pages, leaves)
  {
    var st' := NewRoot(st, left, key, right);
    var info' := info[st.numPages := Info(info[left].height + 1, None, None)];
    forall j | 0 <= j < |leaves| ensures leaves[j] in info && leaves[j] in st.pages {
      ChainLeaf(st.pages, info, leaves, j);
    }
    SameLeavesKeeps(st.pages, info, st'.pages, info', leaves);
  }

  lemma LinkedLeaves(st: Store, info: map<PageId, Info>, m: nat, left: PageId, key: Key, right: PageId,
                     leaves: seq<PageId>)
    requires TreeInv(st, info, m, Orphan(left, key, right)) && ChainInv(st.pages, info, leaves)
    requires var p := st.pages[left].parent;
      p in st.pages && |st.pages[p].kids| == |st.pages[p].keys| + 1 && !st.pages[p].isLeaf
    ensures ChainInv(Linked(st, left, key, right).pages, info, leaves)
    ensures Entries(Linked(st, left, key, right).pages, leaves) == Entries(st.pages, leaves)
  {
    forall j | 0 <= j < |leaves| ensures leaves[j] in info && leaves[j] in st.pages && st.pages[leaves[j]].isLeaf {
      ChainLeaf(st.pages, info, leaves, j);
    }
    SameLeavesKeeps(st.pages, info, Linked(st, left, key, right).pages, info, leaves);
  }

  lemma SplitInnerLeaves(st: Store, info: map<PageId, Info>, m: nat, p: PageId, leaves: seq<PageId>)
    requires m >= 4 && TreeInv(st, info, m, Over(p)) && p in info && ChainInv(st.pages, info, leaves)
    requires !st.pages[p].isLeaf && |st.pages[p].keys| == m && |st.pages[p].kids| == m + 1
    ensures var info' := SplitInfo(info, p, st.pages[p].keys[m / 2], st.numPages);
      && ChainInv(SplitInner(st, p).pages, info', leaves)
      && Entries(SplitInner(st, p).pages, leaves) == Entries(st.pages, leaves)
  {
    var mid := m / 2;
    assert PageInv(st, info, m, Over(p), p);
    SplitInnerPages(st, info, m, p, mid);
    forall j | 0 <= j < |leaves| ensures leaves[j] in info && leaves[j] in st.pages && st.pages[leaves[j]].isLeaf {
      ChainLeaf(st.pages, info, leaves, j);
    }
    if IX_LEAF_HEADER_PAGE in st.pages[p].kids[mid + 1..] { KidFacts(st, info, m, Over(p), p, IX_LEAF_HEADER_PAGE); }
    SameLeavesKeeps(st.pages, info, SplitInner(st, p).pages, SplitInfo(info, p, st.pages[p].keys[mid], st.numPages),
                    leaves);
  }
}
