// The index: its pages, and insertion and search on them.
module IxIndex {
  import opened KeyOrder
  import opened IxDefs
  import opened IxNode
  import opened BTree
  import opened BTreeOrder
  import opened BTreeSearch
  import opened BTreeInsert

  /** What insert_entry can throw. */
  datatype IndexError = UniqueIndexViolation

  class IxIndexHandle {
    const maxSize: nat                    // get_max_size: btree_order_ + 1
    const unique: bool                    // index_meta_.unique
    var pages: map<PageId, IxNodeHandle>  // the pages of the file that hold nodes
    var rootPage: PageId
    var firstLeaf: PageId
    var lastLeaf: PageId
    var numPages: int
    ghost var store: Store                // what the pages and the file header stand for
    ghost var shape: Shape                // the tree they form
    ghost var Repr: set<object>

    /** Page p is a node of its own, and store says what it holds. */
    ghost predicate Held(p: PageId)
      requires p in pages
      reads this`pages, this`store, this`Repr, Repr
    {
      && pages[p] in Repr && pages[p].keys in Repr && pages[p].rids in Repr
      && pages[p].Valid() && pages[p].maxSize == maxSize && pages[p].pageNo == p
      && p in store.pages && store.pages[p] == pages[p].View()
    }

    /** Two pages do not share slots. */
    ghost predicate Apart(p: PageId, q: PageId)
      requires p in pages && q in pages
      reads this`pages
    {
      p == q || (pages[p] != pages[q] && pages[p].keys != pages[q].keys && pages[p].rids != pages[q].rids)
    }

    /** Pages are separate objects, and store is what they and the file header hold. */
    ghost predicate Heap()
      reads this`pages, this`store, this`Repr, this`rootPage, this`firstLeaf, this`lastLeaf, this`numPages, Repr
    {
      && this !in Repr
      && (forall p {:trigger Held(p)} | p in pages :: Held(p))
      && (forall p, q {:trigger Apart(p, q)} | p in pages && q in pages :: Apart(p, q))
      && store.pages.Keys == pages.Keys
      && store.root == rootPage && store.firstLeaf == firstLeaf && store.lastLeaf == lastLeaf
      && store.numPages == numPages
    }

    /** Between operations the store is a B+ tree. */
    ghost predicate Valid()
      reads this, Repr
    {
      Heap() && IndexInv(store, shape, maxSize)
    }

    /** In the middle of an insertion: a B+ tree but for what pend says. */
    ghost predicate Building(pend: Pending)
      reads this, Repr
    {
      && Heap() && maxSize >= 4
      && TreeInv(store, shape.info, maxSize, pend) && ChainInv(store.pages, shape.info, shape.leaves)
    }

    /** What no step above the leaves changes. */
    twostate predicate LeavesKept()
      reads this
    {
      && shape.leaves == old(shape.leaves) && Entries() == old(Entries())
      && store.firstLeaf == old(store.firstLeaf) && store.lastLeaf == old(store.lastLeaf)
    }

    /** How far page p is below the root. */
    ghost function Depth(p: PageId): int
      reads this
    {
      if store.root in shape.info && p in shape.info then shape.info[store.root].height - shape.info[p].height else 0
    }

    /** The (key, rid) pairs of the index, in order. */
    ghost function Entries(): seq<Entry>
      reads this
    {
      Contents(store, shape)
    }

    ghost predicate Separator(k: Key)
      reads this
    {
      IsSeparator(store, shape, k)
    }

    // ----- create_index -----

    /** A leaf page without keys, with the same page before and after it. */
    static method EmptyLeaf(p: PageId, maxSize: nat, link: PageId) returns (node: IxNodeHandle)
      ensures fresh(node) && fresh(node.keys) && fresh(node.rids) && node.Valid() && node.maxSize == maxSize
      ensures node.pageNo == p
      ensures node.View() == Page(IX_NO_PAGE, true, link, link, [], [], [])
    {
      node := new IxNodeHandle(p, maxSize);
      node.SetLeaf(true);
      node.SetPrevLeaf(link);
      node.SetNextLeaf(link);
    }

    /** The two pages create_index writes. */
    method WriteFirstPages(header: IxNodeHandle, root: IxNodeHandle)
      requires header != root && header.keys != root.keys && header.rids != root.rids
      requires header.Valid() && header.maxSize == maxSize && header.pageNo == IX_LEAF_HEADER_PAGE
      requires root.Valid() && root.maxSize == maxSize && root.pageNo == IX_INIT_ROOT_PAGE
      requires header.View() == CreatedStore().pages[IX_LEAF_HEADER_PAGE]
      requires root.View() == CreatedStore().pages[IX_INIT_ROOT_PAGE]
      requires store == CreatedStore() && rootPage == store.root && firstLeaf == store.firstLeaf
      requires lastLeaf == store.lastLeaf
      requires numPages == store.numPages
      modifies this`pages, this`Repr
      ensures Heap() && Repr == {header, header.keys, header.rids, root, root.keys, root.rids}
    {
      pages := map[IX_LEAF_HEADER_PAGE := header, IX_INIT_ROOT_PAGE := root];
      Repr := {header, header.keys, header.rids, root, root.keys, root.rids};
    }

    /** create_index: the page that closes the leaf list, and an empty root. The order of the tree is above 2. */
    constructor (maxSize: nat, unique: bool)
      requires maxSize >= 4
      ensures Valid() && fresh(Repr) && this.maxSize == maxSize && this.unique == unique && Entries() == []
    {
      this.maxSize, this.unique := maxSize, unique;
      rootPage, firstLeaf, lastLeaf := IX_INIT_ROOT_PAGE, IX_INIT_ROOT_PAGE, IX_INIT_ROOT_PAGE;
      numPages := IX_INIT_NUM_PAGES;
      store, shape := CreatedStore(), CreatedShape();
      new;
      var header := EmptyLeaf(IX_LEAF_HEADER_PAGE, maxSize, IX_INIT_ROOT_PAGE);
      var root := EmptyLeaf(IX_INIT_ROOT_PAGE, maxSize, IX_LEAF_HEADER_PAGE);
      WriteFirstPages(header, root);
      CreatedIndex(maxSize);
    }

    // ----- pages -----

    /** A change of the node of page p alone, recorded in store, keeps everything else in place. */
    twostate lemma Recorded(p: PageId)
      requires old(Heap()) && p in pages && pages == old(pages) && Repr == old(Repr)
      requires pages[p].Valid()
      requires store == old(store).(pages := old(store).pages[p := pages[p].View()])
      requires rootPage == old(rootPage) && firstLeaf == old(firstLeaf) && lastLeaf == old(lastLeaf)
      requires numPages == old(numPages)
      requires forall q {:trigger pages[q]} | q in pages && q != p ::
        unchanged(pages[q]) && unchanged(pages[q].keys) && unchanged(pages[q].rids)
      ensures Heap()
    {
      forall q | q in pages ensures Held(q) {
        assert old(Held(q));
        if q != p { assert unchanged(pages[q]) && unchanged(pages[q].keys) && unchanged(pages[q].rids); }
      }
      forall q, r | q in pages && r in pages ensures Apart(q, r) { assert old(Apart(q, r)); }
    }

    /** Nodes other than that of page p are different objects. */
    lemma Others(p: PageId)
      requires p in pages && forall q, r {:trigger Apart(q, r)} | q in pages && r in pages :: Apart(q, r)
      ensures forall q {:trigger pages[q]} | q in pages && q != p ::
        pages[q] != pages[p] && pages[q].keys != pages[p].keys && pages[q].rids != pages[p].rids
    {
      forall q | q in pages ensures Apart(p, q) {}
    }

    /** create_node: a fresh page, an internal node without keys. */
    method CreateNode() returns (q: PageId)
      requires Heap() && numPages !in pages
      modifies this`pages, this`numPages, this`store, this`Repr
      ensures Heap() && fresh(Repr - old(Repr))
      ensures q == old(numPages) && q in pages && pages == old(pages)[q := pages[q]]
      ensures fresh(pages[q]) && fresh(pages[q].keys) && fresh(pages[q].rids)
      ensures pages[q].numKey == 0 && !pages[q].isLeaf
      ensures store == old(store).(pages := old(store).pages[q := store.pages[q]], numPages := q + 1)
      ensures store.pages[q].parent == store.pages[q].prev == store.pages[q].next == IX_NO_PAGE
      ensures !store.pages[q].isLeaf && store.pages[q].keys == [] && store.pages[q].rids == []
    {
      q := numPages;
      var node := new IxNodeHandle(q, maxSize);
      pages := pages[q := node];
      numPages := numPages + 1;
      Repr := Repr + {node, node.keys, node.rids};
      store := store.(pages := store.pages[q := node.View()], numPages := q + 1);
      forall p | p in pages ensures Held(p) {
        if p != q { assert old(Held(p)); }
      }
      forall p, r | p in pages && r in pages ensures Apart(p, r) {
        if p != q && r != q { assert old(Apart(p, r)); }
        if p != q { assert old(Held(p)); }
        if r != q { assert old(Held(r)); }
      }
    }

    /** set_next_leaf on page p. */
    method SetNextLeaf(p: PageId, next: PageId)
      requires Heap() && p in pages
      modifies this`store, pages[p]
      ensures Heap() && store == old(store).(pages := old(store).pages[p := old(store).pages[p].(next := next)])
    {
      assert Held(p);
      pages[p].SetNextLeaf(next);
      store := store.(pages := store.pages[p := pages[p].View()]);
      Others(p);
      Recorded(p);
    }

    /** set_prev_leaf on page p. */
    method SetPrevLeaf(p: PageId, prev: PageId)
      requires Heap() && p in pages
      modifies this`store, pages[p]
      ensures Heap() && store == old(store).(pages := old(store).pages[p := old(store).pages[p].(prev := prev)])
    {
      assert Held(p);
      pages[p].SetPrevLeaf(prev);
      store := store.(pages := store.pages[p := pages[p].View()]);
      Others(p);
      Recorded(p);
    }

    /** set_parent_page_no on page p. */
    method SetParentPageNo(p: PageId, parent: PageId)
      requires Heap() && p in pages
      modifies this`store, pages[p]
      ensures Heap() && store == old(store).(pages := old(store).pages[p := old(store).pages[p].(parent := parent)])
    {
      assert Held(p);
      pages[p].SetParentPageNo(parent);
      store := store.(pages := store.pages[p := pages[p].View()]);
      Others(p);
      Recorded(p);
    }

    /** The leaf flag of the empty page p. */
    method SetLeaf(p: PageId, leaf: bool)
      requires Heap() && p in pages && store.pages[p].keys == []
      modifies this`store, pages[p]
      ensures Heap() && store == old(store).(pages := old(store).pages[p := store.pages[p]])
      ensures var pg, pg' := old(store).pages[p], store.pages[p];
        && pg'.isLeaf == leaf && pg'.keys == [] && pg'.rids == [] && (leaf ==> pg'.kids == [])
        && pg'.parent == pg.parent && pg'.prev == pg.prev && pg'.next == pg.next
    {
      assert Held(p);
      pages[p].SetLeaf(leaf);
      store := store.(pages := store.pages[p := pages[p].View()]);
      Others(p);
      Recorded(p);
    }

    /** set_size on page p, to fewer keys. */
    method SetSize(p: PageId, size: nat)
      requires Heap() && p in pages && size <= |store.pages[p].keys|
      modifies this`store, pages[p]
      ensures Heap() && size <= |old(store).pages[p].keys|
      ensures var pg := old(store).pages[p];
        && |pg.rids| == (if pg.isLeaf then |pg.keys| else 0) && |pg.kids| == (if pg.isLeaf then 0 else |pg.keys| + 1)
        && store == old(store).(pages := old(store).pages[p :=
             pg.(keys := pg.keys[..size], rids := if pg.isLeaf then pg.rids[..size] else [],
                 kids := if pg.isLeaf then [] else pg.kids[..size + 1])])
    {
      assert Held(p);
      pages[p].SetSize(size);
      store := store.(pages := store.pages[p := pages[p].View()]);
      Others(p);
      Recorded(p);
    }

    /** maintain_child: child childIdx of page p gets p as its parent. */
    method MaintainChild(p: PageId, childIdx: nat)
      requires Heap() && p in pages && childIdx < |store.pages[p].kids| && store.pages[p].kids[childIdx] in pages
      modifies this`store, Repr
      ensures Heap()
      ensures var c := old(store).pages[p].kids[childIdx];
        store == old(store).(pages := old(store).pages[c := old(store).pages[c].(parent := p)])
    {
      assert Held(p);
      if !pages[p].isLeaf {
        var child := pages[p].rids[childIdx].pageNo;
        assert Held(child);
        SetParentPageNo(child, p);
      }
    }

    /** The file header's last leaf. */
    method SetLastLeaf(p: PageId)
      requires Heap()
      modifies this`lastLeaf, this`store
      ensures Heap() && lastLeaf == p && store == old(store).(lastLeaf := p)
    {
      lastLeaf := p;
      store := store.(lastLeaf := p);
      forall x | x in pages ensures Held(x) { assert old(Held(x)); }
    }

    // ----- insertion -----

    /** The pairs of leaf p from slot mid on become the pairs of the empty leaf q. */
    method MoveUpperHalf(p: PageId, q: PageId, mid: nat)
      requires Heap() && p in pages && q in pages && p != q && mid <= |store.pages[p].keys|
      requires store.pages[p].isLeaf && store.pages[q].isLeaf && store.pages[q].keys == []
      requires |store.pages[p].rids| == |store.pages[p].keys|
      modifies this`store, Repr
      ensures Heap()
      ensures var st := old(store);
        store == st.(pages := st.pages
          [q := st.pages[q].(keys := st.pages[p].keys[mid..], rids := st.pages[p].rids[mid..])]
          [p := st.pages[p].(keys := st.pages[p].keys[..mid], rids := st.pages[p].rids[..mid])])
    {
      assert Held(p) && Held(q) && Apart(p, q);
      var node, newNode := pages[p], pages[q];
      ghost var pg, empty := node.View(), newNode.View();
      newNode.InsertPairs(0, node.keys[mid..node.numKey], node.rids[mid..node.numKey], node.numKey - mid);
      assert empty.keys[..0] + pg.keys[mid..] + empty.keys[0..] == pg.keys[mid..] == node.keys[mid..node.numKey];
      assert empty.rids[..0] + pg.rids[mid..] + empty.rids[0..] == pg.rids[mid..] == node.rids[mid..node.numKey];
      store := store.(pages := store.pages[q := newNode.View()]);
      Others(q);
      Recorded(q);
      SetSize(p, mid);
    }

    /** The links of one leaf. */
    method Link(q: PageId, prev: PageId, next: PageId)
      requires Heap() && q in pages
      modifies this`store, Repr
      ensures Heap()
      ensures store == old(store).(pages := old(store).pages[q := old(store).pages[q].(prev := prev, next := next)])
    {
      assert Held(q);
      SetPrevLeaf(q, prev);
      assert Held(q);
      SetNextLeaf(q, next);
    }

    /** Leaf q goes between leaf p and the leaf that followed p. */
    method LinkBehind(p: PageId, q: PageId)
      requires Heap() && p in pages && q in pages && p != q
      requires store.pages[p].next != IX_NO_PAGE ==> store.pages[p].next in pages && store.pages[p].next !in {p, q}
      modifies this`store, this`lastLeaf, Repr
      ensures Heap()
      ensures var st := old(store); var next := st.pages[p].next;
        var pages1 := st.pages[q := st.pages[q].(prev := p, next := next)];
        store == if next != IX_NO_PAGE
          then st.(pages := pages1[next := pages1[next].(prev := q)][p := st.pages[p].(next := q)])
          else st.(pages := pages1[p := st.pages[p].(next := q)], lastLeaf := q)
    {
      assert Held(p);
      var next := pages[p].nextLeaf;
      Link(q, p, next);
      if next != IX_NO_PAGE {
        assert Held(next);
        SetPrevLeaf(next, q);
      } else {
        SetLastLeaf(q);
      }
      assert Held(p);
      SetNextLeaf(p, q);
    }

    /** A new page with the kind and the parent of page p. */
    method CreateSibling(p: PageId) returns (q: PageId)
      requires Heap() && p in pages && numPages !in pages
      modifies this`pages, this`numPages, this`store, this`Repr
      ensures Heap() && fresh(Repr - old(Repr))
      ensures q == old(numPages) && q in pages && pages == old(pages)[q := pages[q]] && q !in old(pages)
      ensures store == old(store).(pages := old(store).pages[q := store.pages[q]], numPages := q + 1)
      ensures var pg := store.pages[q];
        && pg.isLeaf == old(store).pages[p].isLeaf && pg.parent == old(store).pages[p].parent
        && pg.keys == [] && pg.rids == [] && (pg.isLeaf ==> pg.kids == [])
        && pg.prev == pg.next == IX_NO_PAGE
    {
      assert Held(p);
      q := CreateNode();
      assert Held(p) && Held(q);
      SetLeaf(q, pages[p].isLeaf);
      assert Held(p);
      SetParentPageNo(q, pages[p].parent);
    }

    /** split of a leaf. */
    method SplitLeafPage(p: PageId) returns (q: PageId)
      requires Heap() && p in pages && numPages !in pages
      requires store.pages[p].isLeaf && |store.pages[p].rids| == |store.pages[p].keys| && store.pages[p].kids == []
      requires store.pages[p].next != IX_NO_PAGE ==> store.pages[p].next in pages && store.pages[p].next != p
      modifies this, Repr
      ensures Heap() && fresh(Repr - old(Repr)) && shape == old(shape)
      ensures q == old(numPages) && store == SplitLeaf(old(store), p)
    {
      assert Held(p);
      var splitPoint := (pages[p].numKey + 1) / 2;
      q := CreateSibling(p);
      MoveUpperHalf(p, q, splitPoint);
      LinkBehind(p, q);
    }

    /** The memcpy calls of an internal split. */
    method CopyBehind(p: PageId, q: PageId, start: nat)
      requires Heap() && p in pages && q in pages && p != q && start <= |store.pages[p].keys|
      requires !store.pages[p].isLeaf && !store.pages[q].isLeaf
      modifies this`store, Repr
      ensures Heap()
      ensures |old(store).pages[p].kids| == |old(store).pages[p].keys| + 1
      ensures store == old(store).(pages := old(store).pages[q :=
        old(store).pages[q].(keys := old(store).pages[p].keys[start..], kids := old(store).pages[p].kids[start..])])
    {
      assert Held(p) && Held(q) && Apart(p, q);
      var node, newNode := pages[p], pages[q];
      newNode.CopyFrom(node, start);
      store := store.(pages := store.pages[q := newNode.View()]);
      Others(q);
      Recorded(q);
    }

    /** The memcpy calls and the two set_size calls of an internal split: the new page q takes what is
        behind key mid. */
    method MoveBehind(p: PageId, q: PageId, mid: nat)
      requires Heap() && p in pages && q in pages && p != q && mid < |store.pages[p].keys|
      requires !store.pages[p].isLeaf && !store.pages[q].isLeaf
      modifies this`store, Repr
      ensures Heap()
      ensures |old(store).pages[p].kids| == |old(store).pages[p].keys| + 1
      ensures var st := old(store);
        store == st.(pages :=
          st.pages[q := st.pages[q].(keys := st.pages[p].keys[mid + 1..], kids := st.pages[p].kids[mid + 1..])]
                  [p := st.pages[p].(keys := st.pages[p].keys[..mid], kids := st.pages[p].kids[..mid + 1])])
    {
      assert Held(p);
      CopyBehind(p, q, mid + 1);
      SetSize(p, mid);
    }

    /** The children of page q get it as their parent, one by one. */
    method AdoptKids(q: PageId)
      requires Heap() && q in pages && !store.pages[q].isLeaf
      requires forall i | 0 <= i < |store.pages[q].kids| :: store.pages[q].kids[i] in pages
      modifies this`store, Repr
      ensures Heap() && store == old(store).(pages := Adopt(old(store).pages, old(store).pages[q].kids, q))
    {
      assert Held(q);
      ghost var kids := store.pages[q].kids;
      var ridMoveCount := pages[q].numKey + 1;
      var i := 0;
      AdoptNone(store.pages, q);
      while i < ridMoveCount
        invariant 0 <= i <= ridMoveCount == |kids|
        invariant Heap() && store == old(store).(pages := Adopt(old(store).pages, kids[..i], q))
      {
        assert store.pages[q].kids == kids;
        MaintainChild(q, i);
        AdoptNext(old(store).pages, kids, i, q);
        i := i + 1;
      }
      assert kids[..ridMoveCount] == kids;
    }

    /** split of an internal node: the key in the middle goes to neither half, the children behind it change parent. */
    method SplitInnerPage(p: PageId) returns (q: PageId)
      requires Heap() && p in pages && numPages !in pages
      requires !store.pages[p].isLeaf && store.pages[p].keys != [] && |store.pages[p].kids| == |store.pages[p].keys| + 1
      requires forall i | 0 <= i < |store.pages[p].kids| :: store.pages[p].kids[i] in pages
      modifies this, Repr
      ensures Heap() && fresh(Repr - old(Repr)) && shape == old(shape)
      ensures q == old(numPages) && store == SplitInner(old(store), p)
    {
      assert Held(p);
      var middleIdx := pages[p].numKey / 2;
      ghost var pg := store.pages[p];
      q := CreateSibling(p);
      MoveBehind(p, q, middleIdx);
      ghost var right := Page(pg.parent, false, IX_NO_PAGE, IX_NO_PAGE, pg.keys[middleIdx + 1..], [],
                              pg.kids[middleIdx + 1..]);
      ghost var left := pg.(keys := pg.keys[..middleIdx], kids := pg.kids[..middleIdx + 1]);
      assert store.pages == old(store).pages[q := right][p := left];
      AdoptKids(q);
    }

    /** split: the upper half of page p goes to a new page right of it. */
    method Split(p: PageId) returns (q: PageId)
      requires Heap() && p in pages && numPages !in pages
      requires store.pages[p].isLeaf ==> |store.pages[p].rids| == |store.pages[p].keys| && store.pages[p].kids == []
      requires store.pages[p].isLeaf && store.pages[p].next != IX_NO_PAGE ==>
        store.pages[p].next in pages && store.pages[p].next != p
      requires !store.pages[p].isLeaf ==>
        store.pages[p].keys != [] && |store.pages[p].kids| == |store.pages[p].keys| + 1
      requires !store.pages[p].isLeaf ==> forall i | 0 <= i < |store.pages[p].kids| :: store.pages[p].kids[i] in pages
      modifies this, Repr
      ensures Heap() && fresh(Repr - old(Repr)) && shape == old(shape) && q == old(numPages)
      ensures store == if old(store).pages[p].isLeaf then SplitLeaf(old(store), p) else SplitInner(old(store), p)
    {
      assert Held(p);
      if pages[p].isLeaf {
        q := SplitLeafPage(p);
      } else {
        q := SplitInnerPage(p);
      }
    }

    /** The key and the two children of the fresh root r. */
    method FillRoot(r: PageId, left: PageId, key: Key, right: PageId)
      requires Heap() && r in pages && !store.pages[r].isLeaf && maxSize >= 1
      modifies this`store, Repr
      ensures Heap()
      ensures store == old(store).(pages :=
        old(store).pages[r := old(store).pages[r].(keys := [key], kids := [left, right])])
    {
      assert Held(r);
      pages[r].SetOnly(key, left, right);
      store := store.(pages := store.pages[r := pages[r].View()]);
      Others(r);
      Recorded(r);
    }

    /** update_root_page_no */
    method UpdateRootPageNo(root: PageId)
      requires Heap()
      modifies this`rootPage, this`store
      ensures Heap() && rootPage == root && store == old(store).(root := root)
    {
      rootPage := root;
      store := store.(root := root);
      forall x | x in pages ensures Held(x) { assert old(Held(x)); }
    }

    /** The new root page of insert_into_parent. */
    method CreateRoot(left: PageId, key: Key, right: PageId) returns (newRoot: PageId)
      requires Heap() && numPages !in pages && maxSize >= 1
      modifies this, Repr
      ensures Heap() && fresh(Repr - old(Repr)) && shape == old(shape) && newRoot == old(numPages)
      ensures store == old(store).(numPages := newRoot + 1, pages := old(store).pages[newRoot :=
        Page(IX_NO_PAGE, false, IX_NO_PAGE, IX_NO_PAGE, [key], [], [left, right])])
    {
      newRoot := CreateNode();
      assert Held(newRoot);
      FillRoot(newRoot, left, key, right);
    }

    /** insert_into_parent when left is the root: a new root above both halves. */
    method GrowRootPages(left: PageId, key: Key, right: PageId)
      requires Heap() && left in pages && right in pages && numPages !in pages && maxSize >= 1
      modifies this, Repr
      ensures Heap() && fresh(Repr - old(Repr)) && shape == old(shape) && store == NewRoot(old(store), left, key, right)
    {
      var newRoot := CreateRoot(left, key, right);
      ghost var repr := Repr;
      assert Held(left);
      SetParentPageNo(left, newRoot);
      assert Held(right);
      SetParentPageNo(right, newRoot);
      UpdateRootPageNo(newRoot);
      assert Repr == repr;
    }

    /** The same, for the tree: it is one level higher. */
    method GrowRoot(left: PageId, key: Key, right: PageId)
      requires Building(Orphan(left, key, right)) && left == store.root
      modifies this, Repr
      ensures Building(Settled) && fresh(Repr - old(Repr)) && LeavesKept()
    {
      ghost var st, info, leaves := store, shape.info, shape.leaves;
      ghost var info' := info[st.numPages := Info(info[left].height + 1, None, None)];
      assert left in st.pages && right in st.pages && st.numPages !in st.pages by {
        OrphanFacts(st, info, maxSize, left, key, right);
      }
      GrowRootPages(left, key, right);
      shape := Shape(info', leaves);
      assert TreeInv(store, info', maxSize, Settled) by { NewRootKeeps(st, info, maxSize, left, key, right); }
      NewRootLeaves(st, info, maxSize, left, key, right, leaves);
    }

    /** insert_pair on page p: key goes before the first key not below it, child right of it. */
    method InsertChild(p: PageId, key: Key, child: PageId)
      requires Heap() && p in pages && !store.pages[p].isLeaf && Sorted(store.pages[p].keys)
      requires |store.pages[p].keys| < maxSize
      modifies this`store, Repr
      ensures Heap() && |old(store).pages[p].kids| == |old(store).pages[p].keys| + 1
      ensures var pg := old(store).pages[p];
        store == old(store).(pages := old(store).pages[p := PairInserted(pg, LowerPos(pg.keys, key), key, child)])
    {
      assert Held(p);
      var insertPos := pages[p].LowerBound(key);
      pages[p].InsertPair(insertPos, key, child);
      store := store.(pages := store.pages[p := pages[p].View()]);
      Others(p);
      Recorded(p);
    }

    /** insert_into_parent when left has a parent: right gets the slot after left's. */
    method LinkRight(left: PageId, key: Key, right: PageId) returns (parent: PageId)
      requires Building(Orphan(left, key, right)) && left != store.root
      modifies this, Repr
      ensures Building(Over(parent)) && fresh(Repr - old(Repr)) && LeavesKept()
      ensures parent in shape.info && !store.pages[parent].isLeaf && 0 <= Depth(parent) < old(Depth(left))
    {
      ghost var st, info, leaves := store, shape.info, shape.leaves;
      OrphanFacts(st, info, maxSize, left, key, right);
      InsertPairKeeps(st, info, maxSize, left, key, right);
      LinkedLeaves(st, info, maxSize, left, key, right, leaves);
      assert Held(left);
      parent := pages[left].parent;
      InsertChild(parent, key, right);
      assert store == Linked(st, left, key, right);
    }

    /** split on the full internal page p, and the key that goes up. */
    method CutInner(p: PageId) returns (middleKey: Key, newParent: PageId)
      requires Heap() && p in pages && numPages !in pages
      requires !store.pages[p].isLeaf && store.pages[p].keys != [] && |store.pages[p].kids| == |store.pages[p].keys| + 1
      requires forall i | 0 <= i < |store.pages[p].kids| :: store.pages[p].kids[i] in pages
      modifies this, Repr
      ensures Heap() && fresh(Repr - old(Repr)) && shape == old(shape) && newParent == old(numPages)
      ensures store == SplitInner(old(store), p)
      ensures middleKey == old(store).pages[p].keys[|old(store).pages[p].keys| / 2]
    {
      assert Held(p);
      var middleIdx := pages[p].numKey / 2;
      middleKey := pages[p].keys[middleIdx];
      assert middleKey == store.pages[p].keys[middleIdx];
      newParent := Split(p);
    }

    /** The tree after the internal page p of store st was split. */
    ghost method RecordInnerSplit(st: Store, p: PageId, key: Key, q: PageId)
      requires Heap() && maxSize >= 4 && TreeInv(st, shape.info, maxSize, Over(p)) && p in shape.info
      requires !st.pages[p].isLeaf && |st.pages[p].keys| == maxSize && |st.pages[p].kids| == maxSize + 1
      requires ChainInv(st.pages, shape.info, shape.leaves) && store == SplitInner(st, p)
      requires key == st.pages[p].keys[maxSize / 2] && q == st.numPages
      modifies this`shape
      ensures Building(Orphan(p, key, q)) && shape.leaves == old(shape).leaves && Entries() == Contents(st, old(shape))
      ensures shape.info == SplitInfo(old(shape).info, p, key, q)
    {
      SplitInnerKeeps(st, shape.info, maxSize, p);
      SplitInnerLeaves(st, shape.info, maxSize, p, shape.leaves);
      shape := Shape(SplitInfo(shape.info, p, key, q), shape.leaves);
    }

    /** insert_into_parent when the parent p has become full: the key that goes up, and the new page. */
    method SplitParent(p: PageId) returns (middleKey: Key, newParent: PageId)
      requires Building(Over(p)) && p in shape.info && !store.pages[p].isLeaf && |store.pages[p].keys| == maxSize
      modifies this, Repr
      ensures Building(Orphan(p, middleKey, newParent)) && fresh(Repr - old(Repr)) && LeavesKept()
      ensures Depth(p) == old(Depth(p))
    {
      FullInner(store, shape.info, maxSize, p);
      middleKey, newParent := CutInner(p);
      RecordInnerSplit(old(store), p, middleKey, newParent);
    }

    /** insert_into_parent: the page right has been split off from left at key, and gets its slot in the parent, which
        is split in turn when it is full. The recursion climbs towards the root, so it ends. */
    method InsertIntoParent(left: PageId, key: Key, right: PageId)
      requires Building(Orphan(left, key, right))
      modifies this, Repr
      ensures Building(Settled) && fresh(Repr - old(Repr)) && LeavesKept()
      decreases Depth(left), 0
    {
      OrphanFacts(store, shape.info, maxSize, left, key, right);
      assert Held(left);
      if pages[left].parent == IX_NO_PAGE {
        GrowRoot(left, key, right);
      } else {
        var parent := LinkRight(left, key, right);
        OverFacts(store, shape.info, maxSize, parent);
        assert Held(parent);
        if pages[parent].numKey == maxSize {
          InsertAbove(parent);
        }
      }
    }

    /** The rest of insert_into_parent when the parent p has become full: split it and go on one level up. */
    method InsertAbove(p: PageId)
      requires Building(Over(p)) && p in shape.info && !store.pages[p].isLeaf && |store.pages[p].keys| == maxSize
      modifies this, Repr
      ensures Building(Settled) && fresh(Repr - old(Repr)) && LeavesKept()
      decreases Depth(p), 1
    {
      var middleKey, newParent := SplitParent(p);
      InsertIntoParent(p, middleKey, newParent);
    }

    // ----- search -----

    /** find_leaf_page: from the root down to the leaf that serves key. */
    method FindLeafPage(key: Key) returns (leaf: PageId)
      requires Valid()
      ensures leaf in pages && leaf in shape.info && store.pages[leaf].isLeaf && Routed(shape.info[leaf], key)
    {
      leaf := rootPage;
      assert Held(leaf);
      while !pages[leaf].isLeaf
        invariant leaf in pages && leaf in shape.info && Held(leaf) && Routed(shape.info[leaf], key)
        decreases shape.info[leaf].height
      {
        DescendStep(store, shape.info, maxSize, leaf, key);
        leaf := pages[leaf].InternalLookup(key);
        assert Held(leaf);
      }
    }

    /** get_value: the rid stored with key, as far as the search goes. */
    method GetValue(key: Key) returns (value: Option<Rid>)
      requires Valid()
      ensures value.Some? <==> Found(Entries(), key, Separator(key))
      ensures value.Some? ==> Entries()[LowerEntry(Entries(), key)] == Entry(key, value.value)
    {
      var leaf := FindLeafPage(key);
      var j := LeafIndex(store, shape, maxSize, leaf);
      LeafFacts(store, shape, maxSize, j);
      assert Held(leaf);
      value := pages[leaf].LeafLookup(key);
      if value.Some? {
        StoredInLeaf(store, shape, maxSize, j, key);
      } else {
        NotStoredInLeaf(store, shape, maxSize, j, key);
      }
    }

    // ----- insert_entry -----

    /** IxNodeHandle::insert on leaf page p. */
    method InsertIntoLeaf(p: PageId, key: Key, value: Rid) returns (size: nat)
      requires Heap() && p in pages && store.pages[p].isLeaf && Sorted(store.pages[p].keys)
      requires |store.pages[p].keys| < maxSize
      modifies this`store, Repr
      ensures Heap() && size == |store.pages[p].keys| && |old(store).pages[p].rids| == |old(store).pages[p].keys|
      ensures store == if key in old(store).pages[p].keys then old(store)
                       else old(store).(pages := old(store).pages[p := LeafInserted(old(store).pages[p], key, value)])
    {
      assert Held(p);
      size := pages[p].Insert(key, value);
      store := store.(pages := store.pages[p := pages[p].View()]);
      assert key in old(store).pages[p].keys ==> store.pages == old(store).pages;
      Others(p);
      Recorded(p);
    }

    /** The pair goes into leaf p, which the search for key ended in; a key that is there already is not added again. */
    method AddToLeaf(p: PageId, key: Key, value: Rid) returns (size: nat)
      requires Valid() && p in shape.info && store.pages[p].isLeaf && Routed(shape.info[p], key)
      modifies this`store, Repr
      ensures Building(Over(p)) && size == |store.pages[p].keys| <= maxSize && store.pages[p].isLeaf
      ensures store.firstLeaf == old(store).firstLeaf && store.lastLeaf == old(store).lastLeaf
      ensures Entries() == if key in old(store.pages[p].keys) then old(Entries())
        else InsertAt(old(Entries()), LowerEntry(old(Entries()), key), Entry(key, value))
    {
      ghost var st := store;
      ghost var j := LeafIndex(st, shape, maxSize, p);
      LeafFacts(st, shape, maxSize, j);
      assert PageInv(st, shape.info, maxSize, Settled, p);
      size := InsertIntoLeaf(p, key, value);
      if key in st.pages[p].keys {
        AnyOver(st, shape.info, maxSize, p);
      } else {
        LeafStep(st, shape, maxSize, p, key, value);
      }
    }

    /** The header keeps naming the rightmost leaf after leaf j was split. */
    method UpdateLastLeaf(leaf: PageId, newLeaf: PageId, ghost leaves: seq<PageId>, ghost j: nat)
      requires Building(Settled) && j < |leaves| && leaves[j] == leaf && Distinct(leaves)
      requires shape.leaves == InsertAt(leaves, j + 1, newLeaf)
      requires store.firstLeaf == leaves[0] && store.lastLeaf == leaves[|leaves| - 1]
      modifies this`lastLeaf, this`store
      ensures Valid() && Entries() == old(Entries())
    {
      if leaf == lastLeaf {
        LastLeafKeeps(store, shape.info, maxSize, newLeaf);
        SetLastLeaf(newLeaf);
      }
    }

    /** split on the full leaf p, and the first key of its right half. */
    method CutLeaf(p: PageId) returns (newLeaf: PageId, midKey: Key)
      requires Heap() && p in pages && numPages !in pages && store.pages[p].isLeaf && |store.pages[p].keys| >= 4
      requires |store.pages[p].rids| == |store.pages[p].keys| && store.pages[p].kids == []
      requires store.pages[p].next in pages && store.pages[p].next != p
      modifies this, Repr
      ensures Heap() && fresh(Repr - old(Repr)) && shape == old(shape) && newLeaf == old(numPages)
      ensures store == SplitLeaf(old(store), p)
      ensures midKey == old(store).pages[p].keys[(|old(store).pages[p].keys| + 1) / 2]
    {
      newLeaf := Split(p);
      assert Held(newLeaf);
      midKey := pages[newLeaf].keys[0];
      assert store.pages[newLeaf].keys[0] == midKey;
    }

    /** The tree after leaf p of store st was split. */
    ghost method RecordSplit(st: Store, p: PageId, j: nat, key: Key, q: PageId)
      requires Heap() && maxSize >= 4 && FullLeaf(st, shape.info, maxSize, p, shape.leaves, j)
      requires store == SplitLeaf(st, p)
      requires key == st.pages[p].keys[(maxSize + 1) / 2] && q == st.numPages
      modifies this`shape
      ensures Building(Orphan(p, key, q))
      ensures shape.leaves == InsertAt(old(shape).leaves, j + 1, q) && Entries() == Contents(st, old(shape))
      ensures store.firstLeaf == st.firstLeaf && store.lastLeaf == st.lastLeaf
    {
      SplitStep(st, shape, maxSize, p, j);
      shape := SplitShape(shape, p, key, q, j);
    }

    /** A split of the full leaf p, for the tree: the right half waits for a slot in the parent. */
    method SplitFullLeaf(p: PageId, ghost j: nat) returns (newLeaf: PageId, midKey: Key)
      requires Heap() && maxSize >= 4 && FullLeaf(store, shape.info, maxSize, p, shape.leaves, j)
      modifies this, Repr
      ensures Building(Orphan(p, midKey, newLeaf)) && fresh(Repr - old(Repr))
      ensures shape.leaves == InsertAt(old(shape).leaves, j + 1, newLeaf) && Entries() == old(Entries())
      ensures store.firstLeaf == old(store).firstLeaf && store.lastLeaf == old(store).lastLeaf
    {
      FullLeafFacts(store, shape.info, maxSize, p, shape.leaves, j);
      newLeaf, midKey := CutLeaf(p);
      RecordSplit(old(store), p, j, midKey, newLeaf);
    }

    /** split and insert_into_parent for the full leaf p. */
    method DivideLeaf(p: PageId, ghost j: nat) returns (newLeaf: PageId)
      requires Heap() && maxSize >= 4 && FullLeaf(store, shape.info, maxSize, p, shape.leaves, j)
      modifies this, Repr
      ensures Building(Settled) && fresh(Repr - old(Repr))
      ensures shape.leaves == InsertAt(old(shape).leaves, j + 1, newLeaf) && Entries() == old(Entries())
      ensures store.firstLeaf == old(store).firstLeaf && store.lastLeaf == old(store).lastLeaf
    {
      var midKey;
      newLeaf, midKey := SplitFullLeaf(p, j);
      InsertIntoParent(p, midKey, newLeaf);
    }

    /** The part of insert_entry for a leaf that has become full. */
    method MakeRoom(p: PageId)
      requires Building(Over(p)) && p in shape.info && store.pages[p].isLeaf && |store.pages[p].keys| == maxSize
      requires store.firstLeaf == shape.leaves[0] && store.lastLeaf == shape.leaves[|shape.leaves| - 1]
      modifies this, Repr
      ensures Valid() && fresh(Repr - old(Repr)) && Entries() == old(Entries())
    {
      ghost var leaves := shape.leaves;
      ghost var j := FindFullLeaf(store, shape.info, maxSize, p, leaves);
      var newLeaf := DivideLeaf(p, j);
      UpdateLastLeaf(p, newLeaf, leaves, j);
    }

    /** What is left to do once leaf p has the given number of pairs. */
    method Settle(p: PageId, size: nat)
      requires Building(Over(p)) && p in shape.info && store.pages[p].isLeaf && size == |store.pages[p].keys| <= maxSize
      requires store.firstLeaf == shape.leaves[0] && store.lastLeaf == shape.leaves[|shape.leaves| - 1]
      modifies this, Repr
      ensures Valid() && fresh(Repr - old(Repr)) && Entries() == old(Entries())
    {
      if size == maxSize {
        MakeRoom(p);
      } else {
        NotOver(store, shape.info, maxSize, p);
      }
    }

    /** The pair goes into the leaf the search ended in, and what has become full is split. */
    method AddAt(leaf: PageId, key: Key, value: Rid)
      requires Valid() && leaf in shape.info && store.pages[leaf].isLeaf && Routed(shape.info[leaf], key)
      modifies this, Repr
      ensures Valid() && fresh(Repr - old(Repr))
      ensures Entries() == if key in old(store.pages[leaf].keys) then old(Entries())
        else InsertAt(old(Entries()), LowerEntry(old(Entries()), key), Entry(key, value))
    {
      var size := AddToLeaf(leaf, key, value);
      Settle(leaf, size);
    }

    /** insert_entry without the unique check: either nothing changes, because the search finds the key, or the pair is
        added in its place. */
    method AddEntry(key: Key, value: Rid)
      requires Valid()
      modifies this, Repr
      ensures Valid() && fresh(Repr - old(Repr))
      ensures Entries() == if Found(old(Entries()), key, old(Separator(key))) then old(Entries())
        else InsertAt(old(Entries()), LowerEntry(old(Entries()), key), Entry(key, value))
    {
      var leaf := FindLeafPage(key);
      LookupInLeaf(store, shape, maxSize, leaf, key);
      AddAt(leaf, key, value);
    }

    /** insert_entry. A unique index refuses the key exactly when get_value finds it. */
    method InsertEntry(key: Key, value: Rid) returns (error: Option<IndexError>)
      requires Valid()
      modifies this, Repr
      ensures Valid() && fresh(Repr - old(Repr))
      ensures error.Some? <==> unique && Found(old(Entries()), key, old(Separator(key)))
      ensures Entries() == if Found(old(Entries()), key, old(Separator(key))) then old(Entries())
        else InsertAt(old(Entries()), LowerEntry(old(Entries()), key), Entry(key, value))
    {
      if unique {
        var result := GetValue(key);
        if result.Some? { return Some(UniqueIndexViolation); }
      }
      AddEntry(key, value);
      error := None;
    }

    /** The first i rows are in the index. */
    ghost predicate Loaded(rows: seq<Entry>, i: nat)
      requires i <= |rows|
      reads this
    {
      Entries() == InKeyOrder(rows, i)
    }

    /** One round of the loop below. */
    method InsertRow(ghost rows: seq<Entry>, ghost i: nat, row: Entry) returns (error: Option<IndexError>)
      requires Valid() && i < |rows| && rows[i] == row
      modifies this, Repr
      ensures Valid() && fresh(Repr - old(Repr))
      ensures DistinctKeys(rows) && old(Loaded(rows, i)) ==> error.None? && Loaded(rows, i + 1)
    {
      ghost var fits := DistinctKeys(rows) && Loaded(rows, i);
      assert fits ==> !Found(Entries(), row.key, Separator(row.key)) by {
        if fits { NewKey(rows, i, Separator(row.key)); }
      }
      error := InsertEntry(row.key, row.rid);
    }

    /** The loop of SmManager::create_index over the rows of a table. Rows with pairwise different keys all get their
        entry, in key order, whether or not the index is unique. */
    method InsertAll(rows: seq<Entry>) returns (error: Option<IndexError>)
      requires Valid() && Entries() == []
      modifies this, Repr
      ensures Valid() && fresh(Repr - old(Repr))
      ensures DistinctKeys(rows) ==> error.None? && Entries() == InKeyOrder(rows, |rows|)
    {
      error := None;
      ghost var distinct := DistinctKeys(rows);
      for i := 0 to |rows|
        invariant Valid() && fresh(Repr - old(Repr))
        invariant distinct ==> error.None? && Loaded(rows, i)
      {
        error := InsertRow(rows, i, rows[i]);
        if error.Some? { return; }
      }
    }

    // ----- positions -----

    /** lower_bound: where the first entry not below key is. */
    method LowerBound(key: Key) returns (iid: Iid)
      requires Valid()
      ensures Denotes(store, shape, iid, LowerEntry(Entries(), key))
      ensures LowerEntry(Entries(), key) == |Entries()| ==> iid == Iid(IX_LEAF_HEADER_PAGE, 0)
    {
      var leaf := FindLeafPage(key);
      ghost var j := LeafIndex(store, shape, maxSize, leaf);
      LeafFacts(store, shape, maxSize, j);
      assert Held(leaf);
      var slotNo := pages[leaf].LowerBound(key);
      iid := Iid(leaf, slotNo);
      if slotNo >= pages[leaf].numKey && pages[leaf].nextLeaf != IX_NO_PAGE {
        iid := Iid(pages[leaf].nextLeaf, 0);
      }
      LowerIid(store, shape, maxSize, j, key);
    }

    /** upper_bound: where the first entry above key is, or one further when that entry is the first of its leaf. */
    method UpperBound(key: Key) returns (iid: Iid)
      requires Valid()
      ensures var n := UpperEntry(Entries(), key);
        Denotes(store, shape, iid, if StartsLeaf(store, shape, n) then n + 1 else n)
      ensures UpperEntry(Entries(), key) == |Entries()| ==> iid == Iid(IX_LEAF_HEADER_PAGE, 1)
    {
      var leaf := FindLeafPage(key);
      ghost var j := LeafIndex(store, shape, maxSize, leaf);
      LeafFacts(store, shape, maxSize, j);
      assert Held(leaf);
      var slotNo := pages[leaf].UpperBound(key);
      iid := Iid(leaf, slotNo);
      if slotNo >= pages[leaf].numKey && pages[leaf].nextLeaf != IX_NO_PAGE {
        iid := Iid(pages[leaf].nextLeaf, 1);
      }
      UpperIid(store, shape, maxSize, j, key);
    }

    /** leaf_begin */
    method LeafBegin() returns (iid: Iid)
      requires Valid()
      ensures Denotes(store, shape, iid, 0) && iid == Iid(firstLeaf, 0)
    {
      iid := Iid(firstLeaf, 0);
      FirstIid(store, shape, maxSize);
    }

    /** leaf_end */
    method LeafEnd() returns (iid: Iid)
      requires Valid()
      ensures Denotes(store, shape, iid, |Entries()|) && iid.pageNo == lastLeaf
      ensures lastLeaf in store.pages && iid.slotNo == |store.pages[lastLeaf].keys|
    {
      assert Held(lastLeaf) by { LeafFacts(store, shape, maxSize, |shape.leaves| - 1); }
      iid := Iid(lastLeaf, pages[lastLeaf].numKey);
      LastIid(store, shape, maxSize);
    }

    /** get_rid: throws past the last slot in use. */
    method GetRid(iid: Iid) returns (rid: Option<Rid>)
      requires Valid() && iid.pageNo in pages && store.pages[iid.pageNo].isLeaf && iid.slotNo >= 0
      ensures rid.Some? <==> exists n :: At(store, shape, iid, n)
      ensures rid.Some? ==>
        exists n: nat :: At(store, shape, iid, n) && n < |Entries()| && Entries()[n].rid == rid.value
    {
      assert Held(iid.pageNo);
      if iid.slotNo >= pages[iid.pageNo].numKey {
        rid := None;
      } else {
        rid := Some(pages[iid.pageNo].rids[iid.slotNo]);
      }
      RidAt(store, shape, maxSize, iid);
    }
  }

  /** What insert_into_parent reads off the split page before it does anything. */
  lemma OrphanFacts(st: Store, info: map<PageId, Info>, m: nat, left: PageId, key: Key, right: PageId)
    requires m >= 4 && TreeInv(st, info, m, Orphan(left, key, right))
    ensures left in st.pages && right in st.pages && st.numPages !in st.pages
    ensures st.pages[left].parent == IX_NO_PAGE <==> left == st.root
    ensures left != st.root ==>
      var p := st.pages[left].parent;
      && p in info && p in st.pages && !st.pages[p].isLeaf && Sorted(st.pages[p].keys) && |st.pages[p].keys| < m
      && info[p].height == info[left].height + 1
  {
    assert PageInv(st, info, m, Orphan(left, key, right), left);
    if left != st.root {
      SplitPageSlot(st, info, m, left, key, right);
      var p := st.pages[left].parent;
      assert PageInv(st, info, m, Orphan(left, key, right), p);
      assert ChildOk(st.pages, info, Orphan(left, key, right), p, LowerPos(st.pages[p].keys, key));
    }
  }

  lemma OverFacts(st: Store, info: map<PageId, Info>, m: nat, p: PageId)
    requires TreeInv(st, info, m, Over(p)) && p in info
    ensures p in st.pages && |st.pages[p].keys| <= m
    ensures |st.pages[p].keys| < m ==> TreeInv(st, info, m, Settled)
  {
    assert PageInv(st, info, m, Over(p), p);
    if |st.pages[p].keys| < m { NotOver(st, info, m, p); }
  }

  /** A full internal page can be split. */
  lemma FullInner(st: Store, info: map<PageId, Info>, m: nat, p: PageId)
    requires m >= 4 && TreeInv(st, info, m, Over(p)) && p in info && !st.pages[p].isLeaf && |st.pages[p].keys| == m
    ensures |st.pages[p].kids| == m + 1 && st.numPages !in st.pages
    ensures forall i | 0 <= i < |st.pages[p].kids| :: st.pages[p].kids[i] in st.pages
  {
    assert PageInv(st, info, m, Over(p), p);
    forall i | 0 <= i < |st.pages[p].kids| ensures st.pages[p].kids[i] in st.pages {
      assert ChildOk(st.pages, info, Over(p), p, i);
    }
  }

  lemma AdoptNone(pages: map<PageId, Page>, q: PageId)
    ensures Adopt(pages, [], q) == pages
  {
  }

  lemma AdoptNext(pages: map<PageId, Page>, kids: seq<PageId>, i: nat, q: PageId)
    requires i < |kids| && kids[i] in pages
    ensures var a := Adopt(pages, kids[..i], q);
      Adopt(pages, kids[..i + 1], q) == a[kids[i] := a[kids[i]].(parent := q)]
  {
    assert kids[..i + 1] == kids[..i] + [kids[i]];
  }

  lemma AnyOver(st: Store, info: map<PageId, Info>, m: nat, p: PageId)
    requires TreeInv(st, info, m, Settled)
    ensures TreeInv(st, info, m, Over(p))
  {
    forall q | q in info ensures PageInv(st, info, m, Over(p), q) {
      assert PageInv(st, info, m, Settled, q);
      forall i | 0 <= i < |st.pages[q].kids| ensures ChildOk(st.pages, info, Over(p), q, i) {
        assert ChildOk(st.pages, info, Settled, q, i);
      }
    }
  }

  /** The leaf a search ends in holds the key exactly when the search finds it. */
  lemma LookupInLeaf(st: Store, sh: Shape, m: nat, p: PageId, key: Key)
    requires IndexInv(st, sh, m) && p in sh.info && st.pages[p].isLeaf && Routed(sh.info[p], key)
    ensures key in st.pages[p].keys <==> Found(Contents(st, sh), key, IsSeparator(st, sh, key))
  {
    var j := LeafIndex(st, sh, m, p);
    if key in st.pages[p].keys {
      StoredInLeaf(st, sh, m, j, key);
    } else {
      NotStoredInLeaf(st, sh, m, j, key);
    }
  }

  ghost predicate DistinctKeys(rows: seq<Entry>) {
    forall i, j | 0 <= i < j < |rows| :: rows[i].key != rows[j].key
  }

  /** The first n rows, each put before the first row so far that has no smaller key. */
  function InKeyOrder(rows: seq<Entry>, n: nat): (es: seq<Entry>)
    requires n <= |rows|
    ensures |es| == n
  {
    if n == 0 then [] else
      var es := InKeyOrder(rows, n - 1); InsertAt(es, LowerEntry(es, rows[n - 1].key), rows[n - 1])
  }

  /** The entries are the first n rows, in strictly increasing key order. */
  ghost predicate IsSortOf(es: seq<Entry>, rows: seq<Entry>, n: nat)
    requires n <= |rows|
  {
    EntriesStrict(es) && multiset(es) == multiset(rows[..n])
  }

  lemma SortStep(es: seq<Entry>, rows: seq<Entry>, i: nat)
    requires DistinctKeys(rows) && i < |rows| && IsSortOf(es, rows, i)
    ensures IsSortOf(InsertAt(es, LowerEntry(es, rows[i].key), rows[i]), rows, i + 1)
  {
    OtherKeys(es, rows, i);
    InsertStrict(es, rows[i].key, rows[i].rid);
    assert rows[..i + 1] == rows[..i] + [rows[i]];
    InsertMultiset(es, LowerEntry(es, rows[i].key), rows[i]);
  }

  /** That is a sort when no key comes twice. */
  lemma {:induction false} InKeyOrderIsSorted(rows: seq<Entry>, n: nat)
    requires DistinctKeys(rows) && n <= |rows|
    ensures IsSortOf(InKeyOrder(rows, n), rows, n)
  {
    if n > 0 {
      var m := n - 1;
      InKeyOrderIsSorted(rows, m);
      SortStep(InKeyOrder(rows, m), rows, m);
    }
  }

  lemma OtherKeys(es: seq<Entry>, rows: seq<Entry>, i: nat)
    requires DistinctKeys(rows) && i < |rows| && multiset(es) == multiset(rows[..i])
    ensures forall n | 0 <= n < |es| :: es[n].key != rows[i].key
  {
    forall n | 0 <= n < |es| ensures es[n].key != rows[i].key {
      assert es[n] in multiset(es) && es[n] in rows[..i];
    }
  }

  /** The key of row i is new to an index that holds the rows before it. */
  lemma NewKey(rows: seq<Entry>, i: nat, separator: bool)
    requires DistinctKeys(rows) && i < |rows|
    ensures !Found(InKeyOrder(rows, i), rows[i].key, separator)
  {
    InKeyOrderIsSorted(rows, i);
    OtherKeys(InKeyOrder(rows, i), rows, i);
  }

  lemma InsertMultiset(es: seq<Entry>, i: nat, e: Entry)
    requires i <= |es|
    ensures multiset(InsertAt(es, i, e)) == multiset(es) + multiset{e}
  {
    assert es == es[..i] + es[i..];
  }
}
