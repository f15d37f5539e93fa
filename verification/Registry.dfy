/** The connections a chirp instance knows: the dictionary of current ones and the set of replaced
    ones, two trees that share one set of link fields (protocol.h, reader.c, connection.c). */
module Registry {
  import opened Orders
  import opened Nodes
  import opened Trees
  import opened Search
  import opened Dictionary
  import opened Connections
  import opened Links
  import RbTree

  /** The shapes of `protocol->connections` and `protocol->old_connections`. */
  datatype Books = Books(live: Tree<Peer>, replaced: Tree<Peer>)

  /** No two structures share an address. */
  ghost predicate OneAddress(s: set<Node<Peer>>) {
    forall m, n :: m in s && n in s && m.addr == n.addr ==> m == n
  }

  /** Both trees are valid and disjoint, and no two current connections have the same key. */
  ghost predicate Kept(b: Books) {
    && Valid(PeerCmp, b.live) && Valid(AddressCmp, b.replaced)
    && NodeSet(b.live) !! NodeSet(b.replaced) && OneAddress(NodeSet(b.live) + NodeSet(b.replaced))
    && OnePerKey(PeerCmp, Elements(b.live))
  }

  /** The previous holder of the key of `e`, if any, goes from the one tree to the other. */
  ghost function Moved(b: Books, e: Entry<Peer>): Books {
    var f := Focus(PeerCmp, e, b.live);
    if f.Leaf? then b
    else Books(Trees.Delete(PeerCmp, b.live, f.cell), Trees.Add(AddressCmp, b.replaced, f.cell))
  }

  /** The registration at the end of a handshake. */
  ghost function Entered(b: Books, e: Cell<Peer>): Books {
    var m := Moved(b, e.AsEntry());
    m.(live := Trees.Add(PeerCmp, m.live, e))
  }

  /** The blind delete by key at the start of a shutdown. */
  ghost function Withdrawn(b: Books, e: Entry<Peer>): Books {
    b.(live := Dictionary.DeleteIfMember(PeerCmp, b.live, e))
  }

  ghost predicate Newcomer(b: Books, n: Node<Peer>) {
    n !in NodeSet(b.live) + NodeSet(b.replaced) && OneAddress(NodeSet(b.live) + NodeSet(b.replaced) + {n})
  }

  // ---------- one step ----------

  lemma ElementNodes<K>(t: Tree<K>)
    ensures NodesOf(Inorder(t)) == NodeSet(t)
    ensures forall c :: c in Elements(t) ==> c.node in NodeSet(t)
  {
    NodeSetIsInorder(t);
  }

  /** Adding a newcomer whose key nobody holds. */
  lemma AddNew(t: Tree<Peer>, e: Cell<Peer>)
    requires Valid(PeerCmp, t) && OnePerKey(PeerCmp, Elements(t)) && !HasKey(PeerCmp, Elements(t), e.AsEntry())
    requires forall n :: n in NodeSet(t) ==> n.addr != e.node.addr
    ensures var t' := Trees.Add(PeerCmp, t, e);
            && Valid(PeerCmp, t') && Elements(t') == Elements(t) + {e} && NodeSet(t') == NodeSet(t) + {e.node}
            && OnePerKey(PeerCmp, Elements(t'))
  {
    PeersAreOrdered();
    ElementNodes(t);
    AddCorrect(PeerCmp, t, e);
    InsertMembers(PeerCmp, Inorder(t), e);
    NewKey(PeerCmp, Elements(t), e);
  }

  lemma AddReplaced(t: Tree<Peer>, e: Cell<Peer>)
    requires Valid(AddressCmp, t) && forall n :: n in NodeSet(t) ==> n.addr != e.node.addr
    ensures var t' := Trees.Add(AddressCmp, t, e);
            Valid(AddressCmp, t') && Elements(t') == Elements(t) + {e} && NodeSet(t') == NodeSet(t) + {e.node}
  {
    AddressesAreOrdered();
    ElementNodes(t);
    AddCorrect(AddressCmp, t, e);
    InsertMembers(AddressCmp, Inorder(t), e);
  }

  /** Dropping the holder of a key. */
  lemma DropHolder(t: Tree<Peer>, e: Entry<Peer>)
    requires Valid(PeerCmp, t) && OnePerKey(PeerCmp, Elements(t)) && Focus(PeerCmp, e, t).Bin?
    ensures var holder := Focus(PeerCmp, e, t).cell;
            var t' := Trees.Delete(PeerCmp, t, holder);
            && holder in Elements(t) && PeerCmp(e, holder.AsEntry()) == 0
            && Valid(PeerCmp, t') && Elements(t') == Elements(t) - {holder} && NodeSet(t') == NodeSet(t) - {holder.node}
            && OnePerKey(PeerCmp, Elements(t')) && !HasKey(PeerCmp, Elements(t'), e)
  {
    PeersAreOrdered();
    var holder := Focus(PeerCmp, e, t).cell;
    FocusIsExists(PeerCmp, t, e);
    DropRefines(PeerCmp, t, e);
    DeleteCorrect(PeerCmp, t, holder);
    RemoveElements(PeerCmp, Inorder(t), holder);
  }

  /** The elements with the key of `e`: none, or the one a lookup finds. */
  ghost function Holders(t: Tree<Peer>, e: Entry<Peer>): set<Cell<Peer>> {
    set c | c in Elements(t) && PeerCmp(e, c.AsEntry()) == 0
  }

  lemma OneHolder(t: Tree<Peer>, e: Entry<Peer>)
    requires Valid(PeerCmp, t) && OnePerKey(PeerCmp, Elements(t))
    ensures var f := Focus(PeerCmp, e, t);
            Holders(t, e) == if f.Leaf? then {} else {f.cell}
    ensures Focus(PeerCmp, e, t).Leaf? <==> !HasKey(PeerCmp, Elements(t), e)
  {
    hide Valid, Focus, PeerCmp, Elements;
    PeersAreOrdered();
    FocusIsExists(PeerCmp, t, e);
    var f := Focus(PeerCmp, e, t);
    if f.Bin? {
      forall c | c in Elements(t) && PeerCmp(e, c.AsEntry()) == 0 ensures c == f.cell {
        CompareSame(PeerCmp, e, c.AsEntry(), f.cell.AsEntry());
      }
    }
  }

  lemma MoveConserves(b: Books, e: Entry<Peer>)
    requires Kept(b)
    ensures var b' := Moved(b, e);
            && Kept(b') && NodeSet(b'.live) + NodeSet(b'.replaced) == NodeSet(b.live) + NodeSet(b.replaced)
            && Elements(b'.live) == Elements(b.live) - Holders(b.live, e)
            && Elements(b'.replaced) == Elements(b.replaced) + Holders(b.live, e)
            && !HasKey(PeerCmp, Elements(b'.live), e)
  {
    hide Valid, Trees.Add, Trees.Delete, Focus, Elements, NodeSet, PeerCmp, AddressCmp, OnePerKey, HasKey, Holders;
    OneHolder(b.live, e);
    var f := Focus(PeerCmp, e, b.live);
    if f.Bin? {
      DropHolder(b.live, e);
      ElementNodes(b.live);
      assert f.cell.node in NodeSet(b.live);
      AddReplaced(b.replaced, f.cell);
    }
  }

  /** A handshake conserves connections: the union grows by the newcomer alone, which now holds its key,
      and a previous holder is among the replaced ones. */
  lemma EnterConserves(b: Books, e: Cell<Peer>)
    requires Kept(b) && Newcomer(b, e.node)
    ensures var b' := Entered(b, e);
            && Kept(b') && NodeSet(b'.live) + NodeSet(b'.replaced) == NodeSet(b.live) + NodeSet(b.replaced) + {e.node}
            && Elements(b'.live) == Elements(b.live) - Holders(b.live, e.AsEntry()) + {e}
            && Elements(b'.replaced) == Elements(b.replaced) + Holders(b.live, e.AsEntry())
  {
    hide Valid, Trees.Add, Moved, Elements, NodeSet, PeerCmp, AddressCmp, OnePerKey, HasKey, Holders;
    MoveConserves(b, e.AsEntry());
    var m := Moved(b, e.AsEntry());
    assert forall n :: n in NodeSet(m.live) ==> n in NodeSet(m.live) + NodeSet(m.replaced);
    AddNew(m.live, e);
  }

  /** A registration keeps the registry exactly if whoever registers is in neither tree and has nobody's
      address there: otherwise two connections share an address, or one is in the trees twice. */
  lemma RegistrationExact(b: Books, e: Cell<Peer>)
    requires Kept(b)
    ensures Kept(Entered(b, e)) <==> Newcomer(b, e.node)
  {
    hide Valid, Trees.Add, Moved, Elements, NodeSet, PeerCmp, AddressCmp, OnePerKey, Holders;
    if Newcomer(b, e.node) {
      EnterConserves(b, e);
    }
    if Kept(Entered(b, e)) {
      MoveConserves(b, e.AsEntry());
      var m := Moved(b, e.AsEntry());
      AddNodes(PeerCmp, m.live, e);
      ValidIsDistinct(Entered(b, e));
      assert NodeSet(Entered(b, e).live) + NodeSet(m.replaced) == NodeSet(b.live) + NodeSet(b.replaced) + {e.node};
    }
  }

  lemma ValidIsDistinct(b: Books)
    requires Kept(b)
    ensures Distinct(b.live) && Distinct(b.replaced)
  {
  }

  lemma LeaveDrops(b: Books, e: Entry<Peer>)
    requires Kept(b)
    ensures var b' := Withdrawn(b, e);
            && Kept(b') && b'.replaced == b.replaced && NodeSet(b'.live) <= NodeSet(b.live)
            && Elements(b'.live) == Elements(b.live) - Holders(b.live, e)
  {
    hide Valid, Trees.Delete, Focus, Elements, NodeSet, PeerCmp, AddressCmp, OnePerKey, HasKey, Holders;
    OneHolder(b.live, e);
    if Focus(PeerCmp, e, b.live).Bin? {
      DropHolder(b.live, e);
    }
  }

  // ---------- any history ----------

  datatype Event = Enter(cell: Cell<Peer>) | Leave(entry: Entry<Peer>) {
    ghost function Who(): Entry<Peer> {
      if Enter? then cell.AsEntry() else entry
    }
  }

  ghost function Step(b: Books, ev: Event): Books {
    match ev
    case Enter(c) => Entered(b, c)
    case Leave(e) => Withdrawn(b, e)
  }

  ghost function After(evs: seq<Event>): Books {
    if evs == [] then Books(Leaf, Leaf) else Step(After(evs[..|evs| - 1]), evs[|evs| - 1])
  }

  lemma AfterMore(evs: seq<Event>, ev: Event)
    ensures After(evs + [ev]) == Step(After(evs), ev)
  {
    assert (evs + [ev])[..|evs|] == evs;
  }

  /** Whoever registers is in neither tree at that moment, and its address is nobody's there. Addresses of
      connections that are in neither tree any more may come back. */
  ghost predicate Admissible(evs: seq<Event>) {
    forall i :: 0 <= i < |evs| && evs[i].Enter? ==> Newcomer(After(evs[..i]), evs[i].cell.node)
  }

  lemma AdmissibleBefore(evs: seq<Event>, n: nat)
    requires Admissible(evs) && n <= |evs|
    ensures Admissible(evs[..n])
    ensures n < |evs| && evs[n].Enter? ==> Newcomer(After(evs[..n]), evs[n].cell.node)
  {
    hide Newcomer, After;
    forall i | 0 <= i < n && evs[i].Enter? ensures Newcomer(After(evs[..n][..i]), evs[..n][i].cell.node) {
      assert evs[..n][..i] == evs[..i];
    }
  }

  /** Nothing with the key of `c` happens from event `lo` until before event `hi`. */
  ghost predicate Quiet(evs: seq<Event>, c: Cell<Peer>, lo: int, hi: int)
    requires 0 <= lo && hi <= |evs|
  {
    forall k :: lo <= k < hi ==> PeerCmp(evs[k].Who(), c.AsEntry()) != 0
  }

  /** `c` registered and nothing with its key has happened since. */
  ghost predicate Current(evs: seq<Event>, c: Cell<Peer>) {
    exists i :: 0 <= i < |evs| && evs[i] == Enter(c) && Quiet(evs, c, i + 1, |evs|)
  }

  /** `c` registered and the next event with its key was another registration. */
  ghost predicate Displaced(evs: seq<Event>, c: Cell<Peer>) {
    exists i, j :: 0 <= i < j < |evs| && evs[i] == Enter(c) && evs[j].Enter?
                   && PeerCmp(evs[j].Who(), c.AsEntry()) == 0 && Quiet(evs, c, i + 1, j)
  }

  /** How the two notions change with one more event. */
  lemma OneMore(evs: seq<Event>, ev: Event, c: Cell<Peer>)
    ensures Current(evs + [ev], c) <==>
            ev == Enter(c) || (Current(evs, c) && PeerCmp(ev.Who(), c.AsEntry()) != 0)
    ensures Displaced(evs + [ev], c) <==>
            Displaced(evs, c) || (Current(evs, c) && ev.Enter? && PeerCmp(ev.Who(), c.AsEntry()) == 0)
  {
    CurrentOneMore(evs, ev, c);
    DisplacedOneMore(evs, ev, c);
  }

  lemma CurrentOneMore(evs: seq<Event>, ev: Event, c: Cell<Peer>)
    ensures Current(evs + [ev], c) <==>
            ev == Enter(c) || (Current(evs, c) && PeerCmp(ev.Who(), c.AsEntry()) != 0)
  {
    hide PeerCmp;
    var all, n := evs + [ev], |evs|;
    if ev == Enter(c) {
      assert all[n] == Enter(c) && Quiet(all, c, n + 1, n + 1);
    }
    if Current(evs, c) && PeerCmp(ev.Who(), c.AsEntry()) != 0 {
      var i :| 0 <= i < n && evs[i] == Enter(c) && Quiet(evs, c, i + 1, n);
      assert all[i] == Enter(c) && Quiet(all, c, i + 1, n + 1);
    }
    if Current(all, c) {
      var i :| 0 <= i <= n && all[i] == Enter(c) && Quiet(all, c, i + 1, n + 1);
      if i < n {
        assert PeerCmp(all[n].Who(), c.AsEntry()) != 0;
        assert forall k :: i + 1 <= k < n ==> all[k] == evs[k];
        assert evs[i] == Enter(c) && Quiet(evs, c, i + 1, n);
      }
    }
  }

  lemma DisplacedOneMore(evs: seq<Event>, ev: Event, c: Cell<Peer>)
    ensures Displaced(evs + [ev], c) <==>
            Displaced(evs, c) || (Current(evs, c) && ev.Enter? && PeerCmp(ev.Who(), c.AsEntry()) == 0)
  {
    hide PeerCmp;
    var all, n := evs + [ev], |evs|;
    if Displaced(evs, c) {
      var i, j :| 0 <= i < j < n && evs[i] == Enter(c) && evs[j].Enter?
                  && PeerCmp(evs[j].Who(), c.AsEntry()) == 0 && Quiet(evs, c, i + 1, j);
      assert all[i] == Enter(c) && all[j] == evs[j] && Quiet(all, c, i + 1, j);
    }
    if Current(evs, c) && ev.Enter? && PeerCmp(ev.Who(), c.AsEntry()) == 0 {
      var i :| 0 <= i < n && evs[i] == Enter(c) && Quiet(evs, c, i + 1, n);
      assert all[i] == Enter(c) && all[n] == ev && Quiet(all, c, i + 1, n);
    }
    if Displaced(all, c) {
      var i, j :| 0 <= i < j <= n && all[i] == Enter(c) && all[j].Enter?
                  && PeerCmp(all[j].Who(), c.AsEntry()) == 0 && Quiet(all, c, i + 1, j);
      assert forall k :: i + 1 <= k < j ==> all[k] == evs[k];
      assert evs[i] == Enter(c) && Quiet(evs, c, i + 1, j);
      assert j < n ==> evs[j] == all[j];
    }
  }

  ghost function Entrants(evs: seq<Event>): set<Cell<Peer>> {
    set i | 0 <= i < |evs| && evs[i].Enter? :: evs[i].cell
  }

  ghost function AllCurrent(evs: seq<Event>): set<Cell<Peer>> {
    set c | c in Entrants(evs) && Current(evs, c)
  }

  ghost function AllDisplaced(evs: seq<Event>): set<Cell<Peer>> {
    set c | c in Entrants(evs) && Displaced(evs, c)
  }

  lemma AllOfThem(evs: seq<Event>, c: Cell<Peer>)
    ensures c in AllCurrent(evs) <==> Current(evs, c)
    ensures c in AllDisplaced(evs) <==> Displaced(evs, c)
  {
    hide Quiet, PeerCmp;
  }

  /** The books say what the history says. */
  ghost predicate Tells(b: Books, evs: seq<Event>) {
    Kept(b) && Elements(b.live) == AllCurrent(evs) && Elements(b.replaced) == AllDisplaced(evs)
  }

  /** After any history: the dictionary holds exactly the connections whose registration is the last
      event with their key, the set exactly those whose key was next registered by another. */
  lemma {:induction false} LatestHolds(evs: seq<Event>)
    requires Admissible(evs)
    ensures Tells(After(evs), evs)
  {
    if evs == [] {
      assert Inorder<Peer>(Leaf) == [];
    } else {
      var n := |evs| - 1;
      var before, ev := evs[..n], evs[n];
      assert evs == before + [ev];
      AdmissibleBefore(evs, n);
      LatestHolds(before);
      match ev
      case Enter(e) => LatestEnter(After(before), before, e);
      case Leave(e) => LatestLeave(After(before), before, e);
    }
  }

  lemma LatestEnter(b: Books, evs: seq<Event>, e: Cell<Peer>)
    requires Newcomer(b, e.node) && Tells(b, evs)
    ensures Tells(Entered(b, e), evs + [Enter(e)])
  {
    hide Entered, Kept, Newcomer, Current, Displaced, PeerCmp, Elements, AllCurrent, AllDisplaced;
    EnterConserves(b, e);
    var current, displaced := AllCurrent(evs + [Enter(e)]), AllDisplaced(evs + [Enter(e)]);
    var live, replaced := Elements(Entered(b, e).live), Elements(Entered(b, e).replaced);
    forall c | c in current + displaced + live + replaced
      ensures (c in current <==> c in live) && (c in displaced <==> c in replaced)
    {
      OneMore(evs, Enter(e), c);
      AllOfThem(evs, c);
      AllOfThem(evs + [Enter(e)], c);
    }
    assert live == current && replaced == displaced;
  }

  lemma LatestLeave(b: Books, evs: seq<Event>, e: Entry<Peer>)
    requires Tells(b, evs)
    ensures Tells(Withdrawn(b, e), evs + [Leave(e)])
  {
    hide Withdrawn, Kept, Current, Displaced, PeerCmp, Elements, AllCurrent, AllDisplaced;
    LeaveDrops(b, e);
    var current, displaced := AllCurrent(evs + [Leave(e)]), AllDisplaced(evs + [Leave(e)]);
    var live, replaced := Elements(Withdrawn(b, e).live), Elements(b.replaced);
    forall c | c in current + displaced + live + replaced
      ensures (c in current <==> c in live) && (c in displaced <==> c in replaced)
    {
      OneMore(evs, Leave(e), c);
      AllOfThem(evs, c);
      AllOfThem(evs + [Leave(e)], c);
    }
    assert live == current && replaced == displaced;
  }

  /** A connection may register exactly when no current and no replaced connection has its address. */
  lemma WhoMayRegister(evs: seq<Event>, n: Node<Peer>)
    requires Admissible(evs)
    ensures Newcomer(After(evs), n) <==> forall c :: c in AllCurrent(evs) + AllDisplaced(evs) ==> c.node.addr != n.addr
  {
    hide Admissible, After, PeerCmp, Valid, OnePerKey, Current, Displaced, Entrants, Elements, Inorder, NodeSet;
    LatestHolds(evs);
    var b := After(evs);
    if forall c :: c in AllCurrent(evs) + AllDisplaced(evs) ==> c.node.addr != n.addr {
      forall m | m in NodeSet(b.live) + NodeSet(b.replaced) ensures m.addr != n.addr {
        var c := Whose(if m in NodeSet(b.live) then b.live else b.replaced, m);
        assert c in AllCurrent(evs) + AllDisplaced(evs);
      }
    }
    if Newcomer(b, n) {
      ElementNodes(b.live);
      ElementNodes(b.replaced);
      forall c | c in AllCurrent(evs) + AllDisplaced(evs) ensures c.node.addr != n.addr {
        assert c.node in NodeSet(b.live) + NodeSet(b.replaced);
      }
    }
  }

  /** In particular no address need ever come back. */
  ghost predicate EntersOnce(evs: seq<Event>) {
    forall i, j :: 0 <= i < j < |evs| && evs[i].Enter? && evs[j].Enter? ==>
                     evs[i].cell.node.addr != evs[j].cell.node.addr
  }

  lemma {:induction false} DistinctAddresses(evs: seq<Event>)
    requires EntersOnce(evs)
    ensures Admissible(evs)
  {
    if evs != [] {
      var n := |evs| - 1;
      DistinctAddresses(evs[..n]);
      if evs[n].Enter? {
        forall c | c in AllCurrent(evs[..n]) + AllDisplaced(evs[..n]) ensures c.node.addr != evs[n].cell.node.addr {
          var i :| 0 <= i < n && evs[..n][i].Enter? && evs[..n][i].cell == c;
          assert evs[i].Enter? && evs[i].cell == c;
        }
        WhoMayRegister(evs[..n], evs[n].cell.node);
      }
      AdmissibleMore(evs[..n], evs[n]);
      assert evs[..n] + [evs[n]] == evs;
    }
  }

  lemma AdmissibleMore(evs: seq<Event>, ev: Event)
    requires Admissible(evs) && (ev.Enter? ==> Newcomer(After(evs), ev.cell.node))
    ensures Admissible(evs + [ev]) && After(evs + [ev]) == Step(After(evs), ev)
  {
    hide Newcomer, Step;
    var all := evs + [ev];
    assert all[..|evs|] == evs;
    forall i | 0 <= i < |all| && all[i].Enter? ensures Newcomer(After(all[..i]), all[i].cell.node) {
      assert i < |evs| ==> all[..i] == evs[..i];
    }
  }

  lemma Whose(t: Tree<Peer>, n: Node<Peer>) returns (c: Cell<Peer>)
    requires n in NodeSet(t)
    ensures c in Elements(t) && c.node == n
  {
    NodeSetIsInorder(t);
    c :| c in Inorder(t) && c.node == n;
  }

  /** The histories `LatestHolds` is about are exactly those that keep the registry at every step. */
  lemma {:induction false} AdmissibleExactly(evs: seq<Event>)
    ensures Admissible(evs) <==> forall i :: 0 <= i <= |evs| ==> Kept(After(evs[..i]))
  {
    hide Newcomer, Kept;
    if evs == [] {
      LatestHolds(evs);
      assert evs[..0] == evs;
    } else {
      var n := |evs| - 1;
      var before, ev := evs[..n], evs[n];
      assert evs == before + [ev] && evs[..|evs|] == evs;
      AdmissibleExactly(before);
      assert forall i :: 0 <= i <= n ==> before[..i] == evs[..i];
      if Admissible(evs) {
        AdmissibleBefore(evs, n);
        LatestHolds(evs);
      }
      if forall i :: 0 <= i <= |evs| ==> Kept(After(evs[..i])) {
        forall i | 0 <= i <= n ensures Kept(After(before[..i])) {
          assert Kept(After(evs[..i]));
        }
        assert before[..n] == before && Kept(After(evs[..|evs|]));
        if ev.Enter? {
          RegistrationExact(After(before), ev.cell);
        }
        AdmissibleMore(before, ev);
      }
    }
  }

  /** After a shutdown nobody holds its key. */
  lemma LeftLast(evs: seq<Event>, e: Entry<Peer>)
    requires Admissible(evs + [Leave(e)])
    ensures !HasKey(PeerCmp, Elements(After(evs + [Leave(e)]).live), e)
  {
    hide After, PeerCmp, Elements, Kept;
    var all := evs + [Leave(e)];
    assert all[..|evs|] == evs;
    AdmissibleBefore(all, |evs|);
    LatestHolds(evs);
    AfterMore(evs, Leave(e));
    LeaveDrops(After(evs), e);
  }

  /** After a registration the one who registered is there. */
  lemma EnteredLast(evs: seq<Event>, c: Cell<Peer>)
    requires Admissible(evs + [Enter(c)])
    ensures c in Elements(After(evs + [Enter(c)]).live)
  {
    hide After, PeerCmp, Elements, Kept, Newcomer;
    var all := evs + [Enter(c)];
    assert all[..|evs|] == evs && all[|evs|] == Enter(c);
    AdmissibleBefore(all, |evs|);
    LatestHolds(evs);
    AfterMore(evs, Enter(c));
    EnterConserves(After(evs), c);
  }

  // ---------- deleting blindly ----------

  /** A shutdown takes its own connection out and nothing else exactly when that connection is
      registered, or nobody holds its key. */
  lemma ShutdownDropsItself(b: Books, c: Cell<Peer>)
    requires Kept(b)
    ensures Elements(Withdrawn(b, c.AsEntry()).live) == Elements(b.live) - {c} <==>
            c in Elements(b.live) || !HasKey(PeerCmp, Elements(b.live), c.AsEntry())
  {
    hide Valid, Focus, PeerCmp, Withdrawn, Elements;
    var e := c.AsEntry();
    LeaveDrops(b, e);
    OneHolder(b.live, e);
    PeersAreOrdered();
    LessTotal(PeerCmp, e, e);
    if c in Elements(b.live) {
      assert c in Holders(b.live, e);
    }
  }

  /** A connection that has shut down, and does not register again, is out of both trees exactly if it was
      never replaced: until closing, nothing takes a replaced connection out of the set. */
  lemma GoneUnlessDisplaced(evs: seq<Event>, k: nat, c: Cell<Peer>)
    requires Admissible(evs) && k < |evs| && evs[k] == Leave(c.AsEntry())
    requires forall i :: k < i < |evs| ==> evs[i] != Enter(c)
    ensures c in Elements(After(evs).live) + Elements(After(evs).replaced) <==> Displaced(evs, c)
  {
    hide Admissible, After, Displaced, PeerCmp, Kept, Elements;
    LatestHolds(evs);
    AllOfThem(evs, c);
    PeersAreOrdered();
    LessTotal(PeerCmp, c.AsEntry(), c.AsEntry());
    assert evs[k].Who() == c.AsEntry();
  }

  lemma NoHistory(c: Cell<Peer>)
    ensures !Current([], c) && !Displaced([], c)
  {
  }

  /** When `d` has replaced `c` and then `c` shuts down, the dictionary loses `d`, and `c` stays in the set. */
  lemma ReplacedTakesTheNewOneAlong(c: Cell<Peer>, d: Cell<Peer>)
    requires c.node.addr != d.node.addr && PeerCmp(d.AsEntry(), c.AsEntry()) == 0
    ensures var b := After([Enter(c), Enter(d), Leave(c.AsEntry())]);
            Elements(b.live) == {} && Elements(b.replaced) == {c}
  {
    hide PeerCmp, After, Kept, Current, Displaced, Quiet;
    var evs := [Enter(c), Enter(d), Leave(c.AsEntry())];
    DistinctAddresses(evs);
    LatestHolds(evs);
    PeersAreOrdered();
    LessTotal(PeerCmp, c.AsEntry(), c.AsEntry());
    LessTotal(PeerCmp, c.AsEntry(), d.AsEntry());
    NoHistory(c);
    NoHistory(d);
    OneMore([], Enter(c), c);
    OneMore([], Enter(c), d);
    assert [] + [Enter(c)] == [Enter(c)];
    OneMore([Enter(c)], Enter(d), c);
    OneMore([Enter(c)], Enter(d), d);
    assert [Enter(c)] + [Enter(d)] == [Enter(c), Enter(d)];
    OneMore([Enter(c), Enter(d)], Leave(c.AsEntry()), c);
    OneMore([Enter(c), Enter(d)], Leave(c.AsEntry()), d);
    assert [Enter(c), Enter(d)] + [Leave(c.AsEntry())] == evs;
    assert Entrants(evs) <= {c, d};
    AllOfThem(evs, c);
    AllOfThem(evs, d);
    assert AllCurrent(evs) == {} && AllDisplaced(evs) == {c};
  }

  // ---------- the trees themselves ----------

  ghost predicate Blank(n: Node<Peer>)
    reads n
  {
    n.key == BLANK && n.left == null && n.right == null && !n.red
  }

  class Protocol {
    var connections: Node?<Peer>
    var oldConnections: Node?<Peer>
    ghost var books: Books
    ghost var log: seq<Event>

    ghost function Nodes(): set<Node<Peer>>
      reads this
    {
      NodeSet(books.live) + NodeSet(books.replaced)
    }

    ghost predicate Standing()
      reads this, Nodes()
    {
      && Kept(books)
      && RbTree.Holds(PeerCmp, connections, books.live) && RbTree.Holds(AddressCmp, oldConnections, books.replaced)
    }

    /** The linked trees are what the history of registrations and shutdowns makes them. */
    ghost predicate Valid()
      reads this, Nodes()
    {
      Standing() && Admissible(log) && books == After(log)
    }

    constructor ()
      ensures Valid() && log == []
    {
      connections, oldConnections := null, null;
      books, log := Books(Leaf, Leaf), [];
    }

    /** `ch_cn_init`, as far as the trees see it: the memory is cleared. It leaves the registry alone if the
        connection is not listed. If it still is, because its memory has come back from the allocator, a tree
        is torn, unless the node was as blank before. */
    method Initialize(conn: Node<Peer>)
      requires Valid()
      modifies conn
      ensures Blank(conn)
      ensures books == old(books) && log == old(log)
      ensures Valid() <==> conn !in Nodes() || old(Blank(conn))
    {
      hide Trees.Valid, Kept, PeerCmp, AddressCmp, Linked, NodeSet, Admissible, After;
      assert allocated(NodeSet(books.live)) && allocated(NodeSet(books.replaced));
      ghost var t := if conn in NodeSet(books.live) then books.live else books.replaced;
      if conn in Nodes() {
        FieldsAtPlace(t, conn);
      }
      conn.key := BLANK;
      conn.left, conn.right := null, null;
      conn.red := false;
      if conn in Nodes() && Valid() {
        FieldsAtPlace(t, conn);
      }
    }

    /** The part of `_ch_rd_handshake` that registers `conn` under the key it has just been given. */
    method Register(conn: Node<Peer>, key: Peer) returns (previous: Node?<Peer>)
      requires Valid() && Newcomer(books, conn)
      modifies this, conn, Nodes()`left, Nodes()`right, Nodes()`red
      ensures Valid() && conn.key == key && log == old(log) + [Enter(Cell(conn, key))]
      ensures previous == Root(Focus(PeerCmp, Entry(key, conn.addr), old(books.live)))
      ensures Nodes() == old(Nodes()) + {conn}
    {
      hide Trees.Valid, Kept, Trees.Add, Trees.Delete, Focus, PeerCmp, AddressCmp, Linked, NodeSet, Inorder, HasKey;
      hide Admissible, After, Newcomer;
      assert allocated(NodeSet(books.live)) && allocated(NodeSet(books.replaced));
      ghost var e := Cell(conn, key);
      Registering(books, log, e);
      conn.key := key;
      previous := RbTree.FindMember(PeerCmp, connections, Entry(key, conn.addr), books.live);
      if previous != null {
        Replace(previous, e.AsEntry());
      }
      Enlist(conn);
      log := log + [Enter(e)];
    }

    /** Moves the previous holder of a key from the one tree to the other. */
    method Replace(previous: Node<Peer>, ghost e: Entry<Peer>)
      requires Standing() && previous == Root(Focus(PeerCmp, e, books.live))
      modifies `connections, `oldConnections, `books, Nodes()`left, Nodes()`right, Nodes()`red
      ensures Standing() && books == Moved(old(books), e)
    {
      hide Trees.Valid, Kept, Trees.Add, Trees.Delete, Focus, PeerCmp, AddressCmp, Linked, NodeSet, Inorder;
      ghost var b := books;
      assert allocated(NodeSet(b.live)) && allocated(NodeSet(b.replaced));
      ghost var f := Focus(PeerCmp, e, b.live).cell;
      Moving(b, e);
      RbTree.LinkedKeys(b.live, f);
      var root, live := RbTree.Delete(PeerCmp, connections, previous, b.live);
      assert Linked(b.replaced);
      assert NodeSet(live) !! NodeSet(b.replaced) + {previous};
      var root', replaced := RbTree.Add(AddressCmp, oldConnections, previous, b.replaced);
      connections, oldConnections, books := root, root', Books(live, replaced);
    }

    /** Adds `conn` to the dictionary. */
    method Enlist(conn: Node<Peer>)
      requires Standing() && Newcomer(books, conn) && !HasKey(PeerCmp, Elements(books.live), Entry(conn.key, conn.addr))
      modifies `connections, `oldConnections, `books, (Nodes() + {conn})`left, (Nodes() + {conn})`right,
               (Nodes() + {conn})`red
      ensures Standing() && books == old(books).(live := Trees.Add(PeerCmp, old(books.live), Cell(conn, conn.key)))
    {
      hide Trees.Valid, Kept, Trees.Add, PeerCmp, AddressCmp, Linked, NodeSet, Inorder;
      ghost var b := books;
      assert allocated(NodeSet(b.live)) && allocated(NodeSet(b.replaced));
      Enlisting(b, Cell(conn, conn.key));
      var root, live := RbTree.Add(PeerCmp, connections, conn, b.live);
      connections, books := root, b.(live := live);
    }

    /** The blind delete in `_ch_cn_shutdown_gen`. */
    method Withdraw(conn: Node<Peer>)
      requires Valid()
      modifies this, Nodes()`left, Nodes()`right, Nodes()`red
      ensures Valid() && log == old(log) + [Leave(Entry(conn.key, conn.addr))]
      ensures Nodes() <= old(Nodes())
    {
      hide Trees.Valid, Kept, PeerCmp, AddressCmp, Dictionary.DeleteIfMember, Linked, NodeSet, Inorder, Admissible,
           After;
      ghost var b := books;
      var e := Entry(conn.key, conn.addr);
      assert allocated(NodeSet(b.live)) && allocated(NodeSet(b.replaced));
      KeptMeans(b);
      LeaveDrops(b, e);
      AdmissibleMore(log, Leave(e));
      var root, out, live := RbTree.DeleteIfMember(PeerCmp, connections, e, b.live);
      assert Linked(b.replaced);
      connections, books, log := root, b.(live := live), log + [Leave(e)];
    }
  }

  /** What a registration needs to know about the books. */
  lemma Registering(b: Books, log: seq<Event>, e: Cell<Peer>)
    requires Admissible(log) && b == After(log) && Newcomer(b, e.node)
    ensures IsComparator(PeerCmp) && e.node !in NodeSet(b.live) + NodeSet(b.replaced)
    ensures var m := Moved(b, e.AsEntry());
            && Newcomer(m, e.node) && !HasKey(PeerCmp, Elements(m.live), e.AsEntry())
            && m.(live := Trees.Add(PeerCmp, m.live, e)) == After(log + [Enter(e)])
            && NodeSet(m.live) + NodeSet(m.replaced) == NodeSet(b.live) + NodeSet(b.replaced)
    ensures Admissible(log + [Enter(e)])
    ensures Focus(PeerCmp, e.AsEntry(), b.live).Leaf? ==> Moved(b, e.AsEntry()) == b
    ensures var b' := After(log + [Enter(e)]);
            NodeSet(b'.live) + NodeSet(b'.replaced) == NodeSet(b.live) + NodeSet(b.replaced) + {e.node}
  {
    hide Trees.Valid, Kept, Trees.Add, Trees.Delete, Focus, PeerCmp, AddressCmp, NodeSet, Inorder, HasKey;
    LatestHolds(log);
    AdmissibleMore(log, Enter(e));
    EnterConserves(b, e);
    MoveConserves(b, e.AsEntry());
    PeersAreOrdered();
  }

  /** What a step on the linked trees needs to know about the books. */
  lemma KeptMeans(b: Books)
    requires Kept(b)
    ensures IsComparator(PeerCmp) && IsComparator(AddressCmp)
    ensures NodeSet(b.live) !! NodeSet(b.replaced)
  {
    PeersAreOrdered();
    AddressesAreOrdered();
  }

  lemma Enlisting(b: Books, e: Cell<Peer>)
    requires Kept(b) && Newcomer(b, e.node) && !HasKey(PeerCmp, Elements(b.live), e.AsEntry())
    ensures IsComparator(PeerCmp) && NodeSet(b.live) !! NodeSet(b.replaced)
    ensures RbTree.Fresh(e, b.live) && Kept(b.(live := Trees.Add(PeerCmp, b.live, e)))
  {
    hide Valid, Trees.Add, PeerCmp, AddressCmp, OnePerKey, HasKey;
    KeptMeans(b);
    ElementNodes(b.live);
    forall c | c in Inorder(b.live) ensures c.node.addr != e.node.addr {
      assert c in Elements(b.live);
    }
    AddNew(b.live, e);
  }

  lemma Moving(b: Books, e: Entry<Peer>)
    requires Kept(b) && Focus(PeerCmp, e, b.live).Bin?
    ensures IsComparator(PeerCmp) && IsComparator(AddressCmp) && Kept(Moved(b, e))
    ensures NodeSet(b.live) !! NodeSet(b.replaced)
    ensures var f := Focus(PeerCmp, e, b.live).cell;
            f in Inorder(b.live) && f.node in NodeSet(b.live) && RbTree.Fresh(f, b.replaced)
  {
    hide Valid, Trees.Delete, Trees.Add, Focus, PeerCmp, AddressCmp;
    KeptMeans(b);
    MoveConserves(b, e);
    DropHolder(b.live, e);
    ElementNodes(b.live);
    ElementNodes(b.replaced);
    var f := Focus(PeerCmp, e, b.live).cell;
    forall c | c in Inorder(b.replaced) ensures c.node.addr != f.node.addr {
      assert c in Elements(b.replaced);
    }
  }
}
