/** A tree used as a dictionary: add-if-absent and delete-if-present against a plain set of cells. */
module Dictionary {
  import opened Orders
  import opened Nodes
  import opened Trees
  import opened Search

  ghost function AddIfNotMember<K>(cmp: Comparator<K>, t: Tree<K>, e: Cell<K>): Tree<K> {
    if Focus(cmp, e.AsEntry(), t).Bin? then t else Add(cmp, t, e)
  }

  ghost function DeleteIfMember<K>(cmp: Comparator<K>, t: Tree<K>, e: Entry<K>): Tree<K> {
    var f := Focus(cmp, e, t);
    if f.Bin? then Delete(cmp, t, f.cell) else t
  }

  ghost function Elements<K>(t: Tree<K>): set<Cell<K>> {
    set c | c in Inorder(t)
  }

  // ---------- the abstract dictionary ----------

  /** No two elements compare equal, so the set is a finite map from keys to nodes. */
  ghost predicate OnePerKey<K>(cmp: Comparator<K>, s: set<Cell<K>>) {
    forall x, y :: x in s && y in s && cmp(x.AsEntry(), y.AsEntry()) == 0 ==> x == y
  }

  ghost predicate HasKey<K>(cmp: Comparator<K>, s: set<Cell<K>>, e: Entry<K>) {
    exists x :: x in s && cmp(e, x.AsEntry()) == 0
  }

  datatype Op<K> = Put(cell: Cell<K>) | Drop(entry: Entry<K>)

  ghost function Step<K>(cmp: Comparator<K>, s: set<Cell<K>>, op: Op<K>): set<Cell<K>> {
    match op
    case Put(e) => if HasKey(cmp, s, e.AsEntry()) then s else s + {e}
    case Drop(e) => set x | x in s && cmp(e, x.AsEntry()) != 0
  }

  ghost function Run<K>(cmp: Comparator<K>, s: set<Cell<K>>, ops: seq<Op<K>>): set<Cell<K>>
    decreases |ops|
  {
    if ops == [] then s else Run(cmp, Step(cmp, s, ops[0]), ops[1..])
  }

  ghost function TreeStep<K>(cmp: Comparator<K>, t: Tree<K>, op: Op<K>): Tree<K> {
    match op
    case Put(e) => AddIfNotMember(cmp, t, e)
    case Drop(e) => DeleteIfMember(cmp, t, e)
  }

  ghost function TreeRun<K>(cmp: Comparator<K>, t: Tree<K>, ops: seq<Op<K>>): Tree<K>
    decreases |ops|
  {
    if ops == [] then t else TreeRun(cmp, TreeStep(cmp, t, ops[0]), ops[1..])
  }

  /** No other element has the address of `e`, and the node of `e` is not in with another key. */
  ghost predicate Fits<K>(s: set<Cell<K>>, e: Cell<K>) {
    forall x :: x in s && x.node.addr == e.node.addr ==> x == e
  }

  /** Every node that is added fits at that moment. Once it is out again, the node may come back with another
      key, and so may another node at its address. */
  ghost predicate Fitting<K>(cmp: Comparator<K>, s: set<Cell<K>>, ops: seq<Op<K>>)
    decreases |ops|
  {
    ops != [] ==> (ops[0].Put? ==> Fits(s, ops[0].cell)) && Fitting(cmp, Step(cmp, s, ops[0]), ops[1..])
  }

  // ---------- refinement ----------

  lemma CompareSame<K(!new)>(cmp: Comparator<K>, x: Entry<K>, y: Entry<K>, z: Entry<K>)
    requires IsComparator(cmp) && cmp(x, y) == 0 && cmp(x, z) == 0
    ensures cmp(y, z) == 0 && cmp(x, x) == 0
  {
    assert cmp(y, x) == 0 && cmp(z, x) == 0;
    assert cmp(y, z) <= 0 && cmp(z, y) <= 0;
  }

  lemma FocusIsExists<K(!new)>(cmp: Comparator<K>, t: Tree<K>, e: Entry<K>)
    requires IsComparator(cmp) && Valid(cmp, t)
    ensures Focus(cmp, e, t).Bin? <==> HasKey(cmp, Elements(t), e)
    ensures Focus(cmp, e, t).Bin? ==>
              Focus(cmp, e, t).cell in Elements(t) && cmp(e, Focus(cmp, e, t).cell.AsEntry()) == 0
  {
    SortedFollows(cmp, e, Inorder(t));
    FocusDecides(cmp, e, t);
  }

  lemma PutRefines<K(!new)>(cmp: Comparator<K>, t: Tree<K>, e: Cell<K>)
    requires IsComparator(cmp) && Valid(cmp, t) && OnePerKey(cmp, Elements(t)) && Fits(Elements(t), e)
    ensures var t' := AddIfNotMember(cmp, t, e);
            && Valid(cmp, t') && Elements(t') == Step(cmp, Elements(t), Put(e)) && OnePerKey(cmp, Elements(t'))
  {
    FocusIsExists(cmp, t, e.AsEntry());
    if Focus(cmp, e.AsEntry(), t).Leaf? {
      PutNew(cmp, t, e);
      NewKey(cmp, Elements(t), e);
    }
  }

  lemma PutNew<K(!new)>(cmp: Comparator<K>, t: Tree<K>, e: Cell<K>)
    requires IsComparator(cmp) && Valid(cmp, t) && !HasKey(cmp, Elements(t), e.AsEntry()) && Fits(Elements(t), e)
    ensures Valid(cmp, Add(cmp, t, e)) && Elements(Add(cmp, t, e)) == Elements(t) + {e}
  {
    LessTotal(cmp, e.AsEntry(), e.AsEntry());
    forall c | c in Inorder(t) ensures c.node.addr != e.node.addr {
      assert c in Elements(t);
    }
    AddCorrect(cmp, t, e);
    InsertMembers(cmp, Inorder(t), e);
  }

  lemma NewKey<K(!new)>(cmp: Comparator<K>, s: set<Cell<K>>, e: Cell<K>)
    requires IsComparator(cmp) && OnePerKey(cmp, s) && !HasKey(cmp, s, e.AsEntry())
    ensures OnePerKey(cmp, s + {e})
  {
    forall x | x in s ensures cmp(e.AsEntry(), x.AsEntry()) != 0 && cmp(x.AsEntry(), e.AsEntry()) != 0 {
      LessTotal(cmp, e.AsEntry(), x.AsEntry());
      assert !(x in s && cmp(e.AsEntry(), x.AsEntry()) == 0);
    }
  }

  lemma DropRefines<K(!new)>(cmp: Comparator<K>, t: Tree<K>, e: Entry<K>)
    requires IsComparator(cmp) && Valid(cmp, t) && OnePerKey(cmp, Elements(t))
    ensures var t' := DeleteIfMember(cmp, t, e);
            && Valid(cmp, t') && Elements(t') == Step(cmp, Elements(t), Drop(e)) && OnePerKey(cmp, Elements(t'))
  {
    FocusIsExists(cmp, t, e);
    var f := Focus(cmp, e, t);
    if f.Bin? {
      DeleteCorrect(cmp, t, f.cell);
      RemoveElements(cmp, Inorder(t), f.cell);
      forall x | x in Elements(t) ensures cmp(e, x.AsEntry()) == 0 <==> x == f.cell {
        if cmp(e, x.AsEntry()) == 0 {
          CompareSame(cmp, e, x.AsEntry(), f.cell.AsEntry());
        }
      }
    }
  }

  lemma RemoveElements<K(!new)>(cmp: Comparator<K>, s: seq<Cell<K>>, e: Cell<K>)
    requires IsComparator(cmp) && Sorted(cmp, s) && e in s
    ensures (set c | c in Remove(s, e)) == (set c | c in s) - {e}
  {
    var p := RemoveAt(s, e);
    var a, b := s[..p], s[p + 1..];
    assert s == a + [e] + b;
    SortedAround(cmp, a, e, b);
    LessTotal(cmp, e.AsEntry(), e.AsEntry());
    assert e !in a && e !in b;
  }

  /** Any history of add-if-absent and delete-if-present keeps the tree valid and its elements
      those of the abstract dictionary, one per key. */
  lemma {:induction false} HistoryRefinesDictionary<K(!new)>(cmp: Comparator<K>, t: Tree<K>, ops: seq<Op<K>>)
    requires IsComparator(cmp) && Valid(cmp, t) && OnePerKey(cmp, Elements(t)) && Fitting(cmp, Elements(t), ops)
    ensures Valid(cmp, TreeRun(cmp, t, ops))
    ensures Elements(TreeRun(cmp, t, ops)) == Run(cmp, Elements(t), ops)
    ensures OnePerKey(cmp, Elements(TreeRun(cmp, t, ops)))
    decreases |ops|
  {
    if ops != [] {
      var t' := TreeStep(cmp, t, ops[0]);
      match ops[0] {
        case Put(e) => PutRefines(cmp, t, e);
        case Drop(e) => DropRefines(cmp, t, e);
      }
      HistoryRefinesDictionary(cmp, t', ops[1..]);
    }
  }
}
