/**
  The fileset object: its entries live in AVL trees, one per kind and life
  stage, and are handed out and taken back under the pick lock.
*/
module Filesets {
  import opened AvlShape
  import opened AvlLinks
  import opened Avl
  import opened FilesetSpec

  /** Which entry of a tree a pick in rotation tries first. */
  datatype Rotor = FileExist(tid: nat) | FileNoexist | Directory | LeafDirExist | LeafDirNoexist

  /** The flag bits of a pick. */
  datatype Want = Want(kind: Kind, unique: bool, noexist: bool, byIndex: bool)

  function PickTree(w: Want): TreeId {
    TreeAt(w.kind, if w.unique then Free else if w.noexist then Noexist else Exist)
  }

  /**
    What a pick may return: of the wanted kind and, for files and leaf
    directories, unused for a unique pick, else used and on disk or not.
  */
  predicate Wanted(w: Want, e: Entry) {
    && e.kind == w.kind
    && (w.kind != Dir ==> if w.unique then e.free else !e.free && (e.onDisk <==> !w.noexist))
  }

  lemma PickTreeIsWanted(w: Want)
    ensures forall e: Entry :: Home(e) == PickTree(w) <==> Wanted(w, e)
  {
  }

  /** Picks share a rotor exactly if they rotate through the same tree, and for existing files in the same thread. */
  lemma RotorsApart(w: Want, tid: nat, v: Want, uid: nat)
    ensures RotorFor(w, tid) == RotorFor(v, uid) <==>
      && w.kind == v.kind && (w.kind != Dir ==> w.noexist == v.noexist)
      && (w.kind == File && !w.noexist ==> tid == uid)
  {
  }

  function RotorFor(w: Want, tid: nat): Rotor {
    match w.kind
    case File => if w.noexist then FileNoexist else FileExist(tid)
    case Dir => Directory
    case LeafDir => if w.noexist then LeafDirNoexist else LeafDirExist
  }

  /** The index a pick asks for; `random` is the draw used when a unique pick names none. */
  function Request(w: Want, rotor: nat, index: nat, random: nat): nat {
    if w.unique then (if index != 0 then index else random)
    else if w.byIndex then index
    else rotor
  }

  /** The tree holds exactly the entries in s, ordered by their indexes. */
  ghost predicate Shelves(t: AvlTree, s: set<Ptr>, entries: Entries)
    reads t
  {
    && t.Valid() && t.Ordered()
    && (forall p :: p in t.Order() <==> p in s)
    && (forall p :: p in s ==> p in entries && p in t.key && t.key[p] == entries[p].index)
  }

  lemma ShelvesKeep(t: AvlTree, s: set<Ptr>, e: Entries, f: Entries)
    requires Shelves(t, s, e)
    requires forall p :: p in e ==> p in f && f[p].index == e[p].index
    ensures Shelves(t, s, f)
  {
  }

  method TakeOut(t: AvlTree, p: Ptr, ghost s: set<Ptr>, ghost entries: Entries)
    requires Shelves(t, s, entries) && p in s
    modifies t
    ensures Shelves(t, s - {p}, entries)
  {
    hide AvlTree.Valid, AvlTree.Ordered, AvlTree.Order, Without;
    t.OrderDistinct();
    WithoutMembers(t.Order(), IndexOf(t.Order(), p));
    var levels := t.Remove(p);
  }

  method PutIn(t: AvlTree, p: Ptr, index: nat, ghost s: set<Ptr>, ghost entries: Entries) returns (added: bool)
    requires Shelves(t, s, entries) && p !in s && p in entries && entries[p].index == index && NodeAddr(p)
    modifies t
    ensures added <==> forall q :: q in s ==> entries[q].index != index
    ensures if added then Shelves(t, s + {p}, entries) else unchanged(t)
  {
    hide AvlTree.Valid, AvlTree.Ordered, AvlTree.Order;
    ghost var pos;
    added, pos := t.Add(p, index);
  }

  /** A shelf lists its entries by increasing index. */
  lemma ShelfByIndex(t: AvlTree, s: set<Ptr>, entries: Entries)
    requires Shelves(t, s, entries)
    ensures ByIndex(t.Order(), entries)
    ensures forall p :: p in t.Order() ==> NodeAddr(p)
  {
    t.OrderDistinct();
    var o := t.Order();
    forall i | 0 <= i < |o| ensures o[i] in entries && o[i] in t.key && t.key[o[i]] == entries[o[i]].index {
      assert o[i] in o;
    }
  }

  /** fileset_find_entry: the least index that is at least k, wrapping around to the least of all. */
  method FindEntry(t: AvlTree, k: nat, ghost s: set<Ptr>, ghost entries: Entries) returns (r: Ptr, ghost j: nat)
    requires Shelves(t, s, entries)
    ensures ByIndex(t.Order(), entries)
    ensures t.Order() == [] ==> r == NULL
    ensures t.Order() != [] ==> StartsAt(t.Order(), entries, k, j) && r == t.Order()[j] && r != NULL
  {
    hide AvlTree.Valid, AvlTree.Ordered, AvlTree.Order, ByIndex;
    ShelfByIndex(t, s, entries);
    var where, compares;
    r, where, compares := t.Find(k);
    j := 0;
    if r != NULL {
      j := IndexOf(t.Order(), r);
      FoundStart(t.Order(), entries, k, j);
      return;
    }
    ghost var i := t.SlotIndex(where);
    SlotStart(t, s, entries, k, i);
    j := if i < |t.Order()| then i else 0;
    r := t.Nearest(where, 1);
    if r != NULL { return; }
    var steps;
    r, steps := t.First();
  }

  lemma FoundStart(s: seq<Ptr>, entries: Entries, k: nat, j: nat)
    requires ByIndex(s, entries) && j < |s| && entries[s[j]].index == k
    ensures StartsAt(s, entries, k, j)
  {
  }

  lemma SlotStart(t: AvlTree, s: set<Ptr>, entries: Entries, k: nat, i: nat)
    requires Shelves(t, s, entries) && ByIndex(t.Order(), entries) && i <= |t.Order()|
    requires AllBelow(t.key, t.Order()[..i], k) && AllAbove(t.key, t.Order()[i..], k)
    ensures t.Order() != [] ==> StartsAt(t.Order(), entries, k, if i < |t.Order()| then i else 0)
    ensures forall j :: 0 <= j < |t.Order()| ==> t.Order()[j] != NULL
  {
    var o := t.Order();
    t.OrderDistinct();
    forall j | 0 <= j < |o| ensures o[j] in t.key && t.key[o[j]] == entries[o[j]].index && o[j] != NULL {
      assert o[j] in o;
    }
    forall j | 0 <= j < i ensures entries[o[j]].index < k { assert o[j] in o[..i]; }
    forall j | i <= j < |o| ensures entries[o[j]].index > k { assert o[j] == o[i..][j - i] && o[j] in o[i..]; }
  }

  /** The loop of fileset_pick that steps over busy entries. */
  method ScanIdle(t: AvlTree, start: Ptr, entries: Entries, ghost s: set<Ptr>, ghost j: nat) returns (entry: Ptr)
    requires Shelves(t, s, entries) && ByIndex(t.Order(), entries)
    requires j < |t.Order()| && start == t.Order()[j]
    ensures entry == NULL <==> AllBusy(t.Order(), entries)
    ensures entry != NULL ==> FirstIdle(t.Order(), entries, j, entry)
  {
    hide AvlTree.Valid, AvlTree.Ordered, AvlTree.Order;
    ghost var o := t.Order();
    ShelfByIndex(t, s, entries);
    t.OrderMembers();
    entry := start;
    ghost var c := j;
    assert o[c] in o;
    while entries[entry].busy
      invariant c < |o| && entry == o[c] && entry in o && entry in entries && BusyUpTo(o, entries, j, c)
      decreases if c >= j then |o| - c + j else j - c
    {
      ScanStep(o, entries, j, c);
      WalkNext(t, c);
      var steps;
      entry, steps := t.Walk(entry, 1);
      if entry == NULL {
        entry, steps := t.First();
      }
      if entry == NULL || entry == start {
        return NULL;
      }
      c := if c + 1 < |o| then c + 1 else 0;
      assert o[c] in o;
    }
    assert FirstIdle(o, entries, j, entry);
  }

  lemma BusyInTree(o: seq<Ptr>, entries: Entries, w: Want)
    requires ByIndex(o, entries) && forall p :: p in o <==> p in entries && Wanted(w, entries[p])
    ensures AllBusy(o, entries) <==> forall p :: p in entries && Wanted(w, entries[p]) ==> entries[p].busy
  {
    hide Wanted;
    if AllBusy(o, entries) {
      forall p | p in entries && Wanted(w, entries[p]) ensures entries[p].busy {
        var i :| 0 <= i < |o| && o[i] == p;
      }
    } else {
      var i :| 0 <= i < |o| && !entries[o[i]].busy;
      assert o[i] in o;
    }
  }

  lemma WalkNext(t: AvlTree, c: nat)
    requires t.Valid() && c < |t.Order()|
    ensures IndexOf(t.Order(), t.Order()[c]) == c
  {
    t.OrderDistinct();
    IndexUnique(t.Order(), t.Order()[c], c);
  }

  class Fileset {
    var entries: Entries
    var idle: map<Kind, int>
    var rotors: map<Rotor, nat>
    const trees: map<TreeId, AvlTree>

    /** The trees are seven different objects. */
    ghost predicate TreesApart()
    {
      && (forall t: TreeId :: t in trees)
      && (forall a: TreeId, b: TreeId :: a != b ==> trees[a] != trees[b])
    }

    /** The entries that a placement puts into one tree. */
    ghost function In(place: map<Ptr, TreeId>, t: TreeId): set<Ptr> {
      set p | p in place && place[p] == t
    }

    /** Each tree holds exactly the entries placed in it. */
    ghost predicate Located(place: map<Ptr, TreeId>)
      reads this`entries, trees.Values
    {
      && TreesApart()
      && (forall t: TreeId :: Shelves(trees[t], In(place, t), entries))
      && (forall p :: p in place ==> p in entries && KindOf(place[p]) == entries[p].kind)
    }

    ghost predicate Valid()
      reads this, trees.Values
    {
      && Located(Homes(entries)) && DistinctIndexes(entries) && Wf(State(entries, idle))
      && forall p :: p in entries ==> NodeAddr(p)
    }

    lemma ValidFacts(t: TreeId)
      requires Valid()
      ensures TreesApart() && Homes(entries).Keys == entries.Keys
      ensures Shelves(trees[t], In(Homes(entries), t), entries)
      ensures forall p :: p in trees[t].Order() ==> p in entries && entries[p].kind == KindOf(t)
    {
    }

    lemma LocatedApart(place: map<Ptr, TreeId>)
      requires Located(place)
      ensures TreesApart()
    {
    }

    /** fileset_move_entry */
    method MoveEntry(src: TreeId, dst: TreeId, p: Ptr, ghost place: map<Ptr, TreeId>) returns (added: bool)
      requires Located(place) && DistinctIndexes(entries) && p in place && place[p] == src && NodeAddr(p)
      requires src != dst && KindOf(dst) == KindOf(src)
      modifies trees[src], trees[dst]
      ensures added && Located(place[p := dst])
    {
      hide Shelves;
      ghost var s, d := In(place, src), In(place, dst);
      TakeOut(trees[src], p, s, entries);
      added := PutIn(trees[dst], p, entries[p].index, d, entries);
      ghost var place' := place[p := dst];
      assert In(place', src) == s - {p} && In(place', dst) == d + {p};
      forall t: TreeId ensures Shelves(trees[t], In(place', t), entries) {
        if t != src && t != dst {
          assert In(place', t) == In(place, t);
          assert trees[t] != trees[src] && trees[t] != trees[dst];
        }
      }
    }

    /** An unpopulated fileset over seven empty trees. */
    constructor (empty: map<TreeId, AvlTree>)
      requires forall t: TreeId :: t in empty
      requires forall a: TreeId, b: TreeId :: a != b ==> empty[a] != empty[b]
      requires forall t: TreeId :: empty[t].Valid() && empty[t].Ordered() && empty[t].Order() == []
      ensures Valid() && State(entries, idle) == EMPTY && rotors == map[] && trees == empty
    {
      entries, idle, rotors, trees := map[], EMPTY.idle, map[], empty;
      new;
      hide AvlTree.Valid, AvlTree.Ordered, AvlTree.Order;
      forall t: TreeId ensures Shelves(trees[t], In(map[], t), entries) {
        assert In(map[], t) == {};
      }
      forall k: Kind ensures k in idle {
        match k case File => case Dir => case LeafDir =>
      }
      assert Homes(entries) == map[];
    }

    /** Storing flags or the open count leaves the trees as they are. */
    method Reflag(p: Ptr, e: Entry, ghost place: map<Ptr, TreeId>)
      requires Located(place) && DistinctIndexes(entries) && p in entries
      requires e.kind == entries[p].kind && e.index == entries[p].index
      modifies this`entries
      ensures entries == old(entries)[p := e] && Located(place) && DistinctIndexes(entries)
    {
      entries := entries[p := e];
      forall t: TreeId ensures Shelves(trees[t], In(place, t), entries) {
        assert Shelves(trees[t], In(place, t), old(entries));
        ShelvesKeep(trees[t], In(place, t), old(entries), entries);
      }
    }

    /** The switch statements of fileset_unbusy around fileset_move_entry: directories stay where they are. */
    method SwitchStage(p: Ptr, src: Stage, dst: Stage, ghost place: map<Ptr, TreeId>)
      requires Located(place) && DistinctIndexes(entries) && p in place && p in entries && NodeAddr(p) && src != dst
      requires place[p] == TreeAt(entries[p].kind, src)
      modifies trees.Values
      ensures Located(place[p := TreeAt(entries[p].kind, dst)])
    {
      hide Shelves, Located;
      LocatedApart(place);
      match entries[p].kind
      case File =>
        var added := MoveEntry(TreeAt(File, src), TreeAt(File, dst), p, place);
      case Dir =>
        assert place[p := AllDirs] == place;
      case LeafDir =>
        var added := MoveEntry(TreeAt(LeafDir, src), TreeAt(LeafDir, dst), p, place);
    }

    /** The first half of fileset_unbusy: set or clear the flag, and move the entry to the tree it now names. */
    method UpdateExist(p: Ptr, newExist: bool)
      requires Valid() && p in entries
      modifies this`entries, trees.Values
      ensures entries == old(entries)[p := old(entries)[p].(free := false, onDisk := newExist)]
      ensures Valid()
    {
      hide Shelves, Located, DistinctIndexes, Homes;
      var e := entries[p];
      ghost var place := Homes(entries);
      ValidFacts(Home(e));
      HomesUpdate(entries, p, e);
      if newExist {
        if e.free {
          Reflag(p, e.(onDisk := true, free := false), place);
          SwitchStage(p, Free, Exist, place);
        } else if !e.onDisk {
          Reflag(p, e.(onDisk := true), place);
          SwitchStage(p, Noexist, Exist, place);
        }
      } else {
        if e.free {
          Reflag(p, e.(free := false, onDisk := false), place);
          SwitchStage(p, Free, Noexist, place);
        } else if e.onDisk {
          Reflag(p, e.(onDisk := false), place);
          SwitchStage(p, Exist, Noexist, place);
        }
      }
      HomesUpdate(old(entries), p, e.(free := false, onDisk := newExist));
      assert entries == old(entries)[p := e.(free := false, onDisk := newExist)];
    }

    /** The second half of fileset_unbusy, and all of it when the exist flag is to be left alone. */
    method Release(p: Ptr, openIncr: int)
      requires Valid() && p in entries
      modifies this`entries, this`idle
      ensures Valid()
      ensures State(entries, idle) == Step(old(State(entries, idle)), FilesetSpec.Unbusy(p, false, false, openIncr))
    {
      hide Shelves, Located, DistinctIndexes, Homes;
      var e := entries[p];
      ghost var place := Homes(entries);
      HomesUpdate(entries, p, Unbusied(e, false, false, openIncr));
      Reflag(p, e.(opens := e.opens + openIncr, busy := false, waiting := if e.busy then false else e.waiting), place);
      if e.busy {
        idle := idle[e.kind := idle[e.kind] + 1];
      }
    }

    /** fileset_unbusy */
    method Unbusy(p: Ptr, updateExist: bool, newExist: bool, openIncr: int)
      requires Valid() && p in entries
      modifies this, trees.Values
      ensures Valid() && rotors == old(rotors)
      ensures State(entries, idle) ==
              Step(old(State(entries, idle)), FilesetSpec.Unbusy(p, updateExist, newExist, openIncr))
    {
      hide Located, DistinctIndexes, Homes;
      if updateExist {
        UpdateExist(p, newExist);
      }
      Release(p, openIncr);
    }

    /** Recording a new entry that is not in any tree yet. */
    method Record(p: Ptr, e: Entry, ghost place: map<Ptr, TreeId>)
      requires Located(place) && p !in entries
      modifies this`entries
      ensures entries == old(entries)[p := e] && Located(place)
    {
      hide Shelves;
      entries := entries[p := e];
      forall t: TreeId ensures Shelves(trees[t], In(place, t), entries) {
        assert Shelves(trees[t], In(place, t), old(entries));
        ShelvesKeep(trees[t], In(place, t), old(entries), entries);
      }
    }

    /** avl_add of a recorded entry to the tree that its flags name. */
    method Shelve(t: TreeId, p: Ptr, ghost place: map<Ptr, TreeId>) returns (added: bool)
      requires Located(place) && p in entries && p !in place && NodeAddr(p) && entries[p].kind == KindOf(t)
      modifies trees[t]
      ensures added <==> forall q :: q in place && place[q] == t ==>
                           q in entries && entries[q].index != entries[p].index
      ensures if added then Located(place[p := t]) else unchanged(trees[t])
    {
      hide Shelves;
      ghost var place' := place[p := t];
      added := PutIn(trees[t], p, entries[p].index, In(place, t), entries);
      if added {
        assert In(place', t) == In(place, t) + {p};
        forall u: TreeId ensures Shelves(trees[u], In(place', u), entries) {
          if u != t {
            assert In(place', u) == In(place, u);
            assert trees[u] != trees[t];
          }
        }
      } else {
        assert exists q :: q in In(place, t) && entries[q].index == entries[p].index;
      }
    }

    /** A new entry goes to the tree that its flags name, or to none. */
    method AddNew(p: Ptr, e: Entry, ghost place: map<Ptr, TreeId>) returns (added: bool)
      requires Located(place) && p !in entries && NodeAddr(p) && place.Keys == entries.Keys
      modifies this`entries, trees.Values
      ensures added <==> forall q :: q in place && place[q] == Home(e) ==> old(entries)[q].index != e.index
      ensures if added then entries == old(entries)[p := e] && Located(place[p := Home(e)])
              else entries == old(entries) && Located(place)
    {
      hide Shelves, Located;
      LocatedApart(place);
      Record(p, e, place);
      added := Shelve(Home(e), p, place);
      if !added {
        entries := entries - {p};
        assert entries == old(entries);
      }
    }

    /** The locked increment in the populate functions: the old count is the index of the new entry. */
    method DrawIndex(kind: Kind) returns (index: int)
      requires Valid()
      modifies this`idle
      ensures Valid() && index == old(idle)[kind] && idle == old(idle)[kind := index + 1]
    {
      hide Located, DistinctIndexes;
      index := idle[kind];
      idle := idle[kind := index + 1];
    }

    /**
      fileset_insfilelist, fileset_insdirlist, fileset_insleafdirlist with the index that population draws.
      The tree refuses the entry when it holds one with that index; the entry is then in no tree.
    */
    method InsertEntry(p: Ptr, kind: Kind) returns (added: bool)
      requires Valid() && NodeAddr(p) && p !in entries && idle[kind] >= 0
      modifies this, trees.Values
      ensures rotors == old(rotors) && idle == old(idle)[kind := old(idle)[kind] + 1]
      ensures added <==> forall q :: q in old(entries) && Home(old(entries)[q]) == Home(NewEntry(kind, 0)) ==>
                           old(entries)[q].index != old(idle)[kind]
      ensures entries == if added then old(entries)[p := NewEntry(kind, old(idle)[kind])] else old(entries)
      ensures Located(Homes(entries)) && (!added ==> Valid())
      ensures old(Enabled(State(entries, idle), FilesetSpec.Insert(p, kind))) ==>
        && added && Valid()
        && State(entries, idle) == Step(old(State(entries, idle)), FilesetSpec.Insert(p, kind))
    {
      hide Shelves, Located, Homes, DistinctIndexes;
      ghost var place := Homes(entries);
      ValidFacts(AllDirs);
      HomesAre(entries);
      var index := DrawIndex(kind);
      var e := NewEntry(kind, index);
      HomesUpdate(entries, p, e);
      added := AddNew(p, e, place);
      if old(Enabled(State(entries, idle), FilesetSpec.Insert(p, kind))) {
        DistinctInsert(old(entries), p, e);
      }
    }

    function RotorValue(r: Rotor): nat
      reads this`rotors
    {
      if r in rotors then rotors[r] else 0
    }

    /** The locked end of a grab: the entry becomes busy and the idle count drops by `taken`. */
    method Grab(p: Ptr, taken: int)
      requires Valid() && p in entries
      modifies this`entries, this`idle
      ensures Valid()
      ensures State(entries, idle) == Grabbed(old(State(entries, idle)), p, taken)
    {
      hide Shelves, Located, DistinctIndexes, Homes;
      var e := entries[p];
      idle := idle[e.kind := idle[e.kind] - taken];
      ghost var place := Homes(entries);
      HomesUpdate(entries, p, e.(busy := true));
      Reflag(p, e.(busy := true), place);
    }

    /** fileset_pick, entered once it need not wait: there is no entry of the kind, or one is idle. */
    method Pick(w: Want, tid: nat, index: nat, random: nat) returns (r: Ptr, ghost j: nat)
      requires Valid() && ((exists p :: p in entries && entries[p].kind == w.kind) ==> idle[w.kind] != 0)
      modifies this`entries, this`idle, this`rotors
      ensures Valid()
      ensures forall p :: p in trees[PickTree(w)].Order() <==> p in old(entries) && Wanted(w, old(entries)[p])
      ensures r == NULL <==> forall p :: p in old(entries) && Wanted(w, old(entries)[p]) ==> old(entries)[p].busy
      ensures r != NULL ==> r in old(entries) && Wanted(w, old(entries)[r])
      ensures var o := trees[PickTree(w)].Order();
        && ByIndex(o, old(entries))
        && (r == NULL <==> AllBusy(o, old(entries)))
        && (o != [] ==>
              StartsAt(o, old(entries),
                       if w.unique then (if index != 0 then index else random)
                       else if w.byIndex then index
                       else old(RotorValue(RotorFor(w, tid))), j))
        && (r != NULL ==> j < |o| && FirstIdle(o, old(entries), j, r))
        && rotors == (if w.unique || w.byIndex || o == [] then old(rotors)
                      else old(rotors)[RotorFor(w, tid) := old(entries)[o[j]].index + 1])
      ensures if r == NULL then entries == old(entries) && idle == old(idle)
              else && Enabled(old(State(entries, idle)), FilesetSpec.Pick(r)) && old(entries)[r].kind == w.kind
                   && State(entries, idle) == Step(old(State(entries, idle)), FilesetSpec.Pick(r))
    {
      hide Valid, FirstIdle, StartsAt, AvlTree.Order, PickTree, Wanted, AllBusy, ByIndex, Step, Enabled;
      TreeIsWanted(w);
      TreeByIndex(PickTree(w));
      BusyInTree(trees[PickTree(w)].Order(), entries, w);
      r, j := PickFrom(w, tid, index, random);
      if r != NULL {
        FirstIdleFacts(trees[PickTree(w)].Order(), old(entries), j, r);
      }
    }

    /** The body of fileset_pick, in terms of the tree it looks into. */
    method PickFrom(w: Want, tid: nat, index: nat, random: nat) returns (r: Ptr, ghost j: nat)
      requires Valid() && ((exists p :: p in entries && entries[p].kind == w.kind) ==> idle[w.kind] != 0)
      modifies this`entries, this`idle, this`rotors
      ensures Valid()
      ensures var o := trees[PickTree(w)].Order();
        && ByIndex(o, old(entries))
        && (r == NULL <==> AllBusy(o, old(entries)))
        && (o != [] ==> StartsAt(o, old(entries), Request(w, old(RotorValue(RotorFor(w, tid))), index, random), j))
        && (r != NULL ==> j < |o| && FirstIdle(o, old(entries), j, r))
        && rotors == (if w.unique || w.byIndex || o == [] then old(rotors)
                      else old(rotors)[RotorFor(w, tid) := old(entries)[o[j]].index + 1])
      ensures if r == NULL then entries == old(entries) && idle == old(idle)
              else && Enabled(old(State(entries, idle)), FilesetSpec.Pick(r)) && old(entries)[r].kind == w.kind
                   && State(entries, idle) == Step(old(State(entries, idle)), FilesetSpec.Pick(r))
    {
      hide Shelves, Located, DistinctIndexes, Homes, In, FirstIdle, BusyUpTo, AvlTree.Order;
      var t := PickTree(w);
      ghost var s := In(Homes(entries), t);
      ValidFacts(t);
      var start := NULL;
      start, j := FindEntry(trees[t], Request(w, RotorValue(RotorFor(w, tid)), index, random), s, entries);
      if start == NULL { return NULL, 0; }
      if !w.unique && !w.byIndex {
        rotors := rotors[RotorFor(w, tid) := entries[start].index + 1];
      }
      r := ScanIdle(trees[t], start, entries, s, j);
      if r == NULL { return NULL, j; }
      FirstIdleFacts(trees[t].Order(), entries, j, r);
      Grab(r, 1);
    }

    /** The tree that a pick looks into holds exactly the entries that it may return. */
    lemma TreeIsWanted(w: Want)
      requires Valid()
      ensures PickTree(w) in trees
      ensures forall p :: p in trees[PickTree(w)].Order() <==> p in entries && Wanted(w, entries[p])
    {
      TreeMembers(PickTree(w));
      PickTreeIsWanted(w);
    }

    /** The idle counter of a kind counts its idle entries. */
    ghost predicate Counted(k: Kind)
      reads this`entries, this`idle
    {
      k in idle && idle[k] == |Idle(entries, k)|
    }

    /** One pick in rotation that finds the entry it starts at idle. */
    method PickInTurn(w: Want, tid: nat, ghost c: nat) returns (r: Ptr)
      requires Valid() && !w.unique && !w.byIndex && Counted(w.kind) && c < |trees[PickTree(w)].Order()|
      requires var o := trees[PickTree(w)].Order();
        && ByIndex(o, entries) && StartsAt(o, entries, RotorValue(RotorFor(w, tid)), c) && !entries[o[c]].busy
      modifies this`entries, this`idle, this`rotors
      ensures Valid() && Counted(w.kind) && r == trees[PickTree(w)].Order()[c]
      ensures r in old(entries) && entries == old(entries)[r := old(entries)[r].(busy := true)]
      ensures RotorValue(RotorFor(w, tid)) == old(entries)[r].index + 1
    {
      hide Shelves, Located, DistinctIndexes, Homes, FirstIdle, BusyUpTo, Idle, AvlTree.Order;
      ValidFacts(PickTree(w));
      ghost var o := trees[PickTree(w)].Order();
      assert o[c] in o;
      SomeIdle(entries, o[c]);
      ghost var j;
      r, j := Pick(w, tid, 0, 0);
      StartIsUnique(o, old(entries), old(RotorValue(RotorFor(w, tid))), c, j);
      IdleStart(o, old(entries), c, r);
      StepIdle(old(State(entries, idle)), FilesetSpec.Pick(r), w.kind);
    }

    /** Another thread releases an entry; counters that were right stay right. */
    method ReleaseOne(p: Ptr)
      requires Valid() && p in entries
      modifies this`entries, this`idle
      ensures Valid() && SameIndexes(old(entries), entries)
      ensures forall k: Kind :: old(Counted(k)) ==> Counted(k)
      ensures forall q :: q in entries && entries[q].busy ==> old(entries)[q].busy
    {
      hide Shelves, Located, DistinctIndexes, Homes, Idle;
      ghost var s := State(entries, idle);
      forall k: Kind {
        StepIdle(s, FilesetSpec.Unbusy(p, false, false, 0), k);
      }
      Release(p, 0);
    }

    /** Other threads release entries, whichever they like. */
    method ReleaseAll(ps: seq<Ptr>)
      requires Valid()
      modifies this`entries, this`idle
      ensures Valid() && SameIndexes(old(entries), entries)
      ensures forall k: Kind :: old(Counted(k)) ==> Counted(k)
      ensures forall p :: p in entries && entries[p].busy ==> old(entries)[p].busy
    {
      hide Valid, Counted;
      for i := 0 to |ps|
        invariant Valid() && SameIndexes(old(entries), entries)
        invariant forall k: Kind :: old(Counted(k)) ==> Counted(k)
        invariant forall p :: p in entries && entries[p].busy ==> old(entries)[p].busy
      {
        if ps[i] in entries {
          ReleaseOne(ps[i]);
        }
      }
    }

    lemma TreeByIndex(t: TreeId)
      requires Valid()
      ensures t in trees && ByIndex(trees[t].Order(), entries)
    {
      ValidFacts(t);
      ShelfByIndex(trees[t], In(Homes(entries), t), entries);
    }

    /**
      Picks in rotation from one tree, nothing in it being busy at first, with any releases in between:
      they run through the tree in cyclic index order.
    */
    method PickRound(w: Want, tid: nat, n: nat, releases: nat -> seq<Ptr>) returns (picks: seq<Ptr>, ghost j: nat)
      requires Valid() && !w.unique && !w.byIndex && Counted(w.kind)
      requires 0 < n <= |trees[PickTree(w)].Order()|
      requires forall p :: p in trees[PickTree(w)].Order() ==> p in entries && !entries[p].busy
      modifies this`entries, this`idle, this`rotors
      ensures Valid() && Counted(w.kind) && SameIndexes(old(entries), entries)
      ensures var o := trees[PickTree(w)].Order();
        && ByIndex(o, old(entries)) && StartsAt(o, old(entries), old(RotorValue(RotorFor(w, tid))), j)
        && |picks| == n && Rotation(o, old(entries), old(RotorValue(RotorFor(w, tid))), picks)
        && picks == FromOn(o, j, n)
    {
      hide Valid, Counted, Turning, ByIndex, StartsAt, Rotation, FromOn, AvlTree.Order;
      TreeByIndex(PickTree(w));
      ghost var o, e0, rotor0 := trees[PickTree(w)].Order(), entries, RotorValue(RotorFor(w, tid));
      j := StartExists(o, e0, rotor0);
      TurningStart(o, e0, rotor0, j);
      picks := [];
      for i := 0 to n
        invariant Valid() && Counted(w.kind) && |picks| == i
        invariant Turning(o, e0, rotor0, j, picks, entries, RotorValue(RotorFor(w, tid)))
      {
        ghost var rotor := RotorValue(RotorFor(w, tid));
        TurningIdle(o, e0, rotor0, j, picks, entries, rotor);
        ghost var e := entries;
        var r := PickInTurn(w, tid, Turn(o, j, i));
        TurningPick(o, e0, rotor0, j, picks, e, rotor, r);
        picks := picks + [r];
        ghost var e1 := entries;
        ReleaseAll(releases(i));
        TurningRelease(o, e0, rotor0, j, picks, e1, RotorValue(RotorFor(w, tid)), entries);
      }
      TurningEnd(o, e0, rotor0, j, picks, entries, RotorValue(RotorFor(w, tid)));
    }

    lemma TreeMembers(t: TreeId)
      requires Valid()
      ensures t in trees && forall p :: p in trees[t].Order() <==> p in entries && Home(entries[p]) == t
    {
      ValidFacts(t);
      HomesAre(entries);
    }

    /** With no file busy, a pick of a free file need not wait, and finds none exactly if there is none. */
    method PickFree(random: nat) returns (r: Ptr)
      requires Valid() && Counted(File) && FilesAtRest(entries)
      modifies this`entries, this`idle, this`rotors
      ensures Valid()
      ensures r == NULL <==> FreeSet(old(entries)) == {}
      ensures if r == NULL then entries == old(entries) && idle == old(idle)
              else && r in FreeSet(old(entries)) && Enabled(old(State(entries, idle)), FilesetSpec.Pick(r))
                   && State(entries, idle) == Step(old(State(entries, idle)), FilesetSpec.Pick(r))
    {
      hide Shelves, Located, DistinctIndexes, Homes, FirstIdle, BusyUpTo, Idle, StartsAt, AvlTree.Order, Home;
      TreeMembers(FreeFiles);
      HomeOfFree();
      forall p | p in entries && entries[p].kind == File ensures idle[File] != 0 {
        SomeIdle(entries, p);
      }
      ghost var j;
      ghost var o := trees[FreeFiles].Order();
      assert |o| == 0 || o[0] in o;
      r, j := Pick(Want(File, true, false, false), 0, 0, random);
      assert o == [] <==> FreeSet(old(entries)) == {} by {
        assert forall p :: p in o <==> p in FreeSet(old(entries));
      }
      if r != NULL {
        FirstIdleFacts(o, old(entries), j, r);
      }
    }

    /** One turn of the loop: a free file is picked, and released as allocated or not; NULL when there is none. */
    method AllocateNext(random: nat, done: bool, ghost e0: Entries, ghost picks: seq<Ptr>) returns (r: Ptr)
      requires Valid() && Counted(File) && Allocating(e0, picks, entries)
      modifies this, trees.Values
      ensures Valid() && Counted(File)
      ensures r == NULL ==> Allocating(e0, picks, entries) && FreeSet(entries) == {}
      ensures r != NULL ==> Allocating(e0, picks + [r], entries) && |FreeSet(entries)| < |FreeSet(old(entries))|
      ensures r == NULL ==> entries == old(entries)
      ensures r != NULL ==> r !in picks && r in entries && entries[r].onDisk == done
      ensures r != NULL ==> forall q :: q in old(entries) && q != r ==> q in entries && entries[q] == old(entries)[q]
    {
      hide Valid, Allocating, FreeSet, FilesAtRest, Idle;
      AllocatingRest(e0, picks, entries);
      ghost var s := State(entries, idle);
      r := PickFree(random);
      if r != NULL {
        AllocatingStep(s, r, done, e0, picks);
        AllocatingCount(s, r, done);
        Unbusy(r, true, done, 0);
      }
    }

    /** The file loop of fileset_create without parallel allocation: which files are skipped and which fail is drawn. */
    method AllocateFiles(skips: nat -> bool, succeeds: nat -> bool, draws: nat -> nat)
      returns (ok: bool, picks: seq<Ptr>)
      requires Valid() && Counted(File) && FilesAtRest(entries)
      modifies this, trees.Values
      ensures Valid() && Counted(File) && Allocating(old(entries), picks, entries)
      ensures ok ==> trees[FreeFiles].Order() == [] && FreeSet(entries) == {}
      ensures ok ==> forall p :: p in picks <==> p in FreeSet(old(entries))
      ensures Outcomes(picks, entries, skips, succeeds)
      ensures ok ==> forall i :: 0 <= i < |picks| ==> (picks[i] in trees[ExistFiles].Order() <==> !skips(i))
      ensures forall i :: 0 <= i < (if ok then |picks| else |picks| - 1) && !skips(i) ==> succeeds(i)
      ensures !ok ==> picks != [] && !skips(|picks| - 1) && !succeeds(|picks| - 1)
    {
      hide Valid, Counted, Outcomes, Allocating, FreeSet, FilesAtRest, AvlTree.Order;
      ghost var e0 := entries;
      AllocatingStart(e0);
      picks := [];
      NoOutcomes(entries, skips, succeeds);
      while true
        invariant Valid() && Counted(File) && Allocating(e0, picks, entries)
        invariant Outcomes(picks, entries, skips, succeeds)
        invariant forall i :: 0 <= i < |picks| && !skips(i) ==> succeeds(i)
        decreases |FreeSet(entries)|
      {
        ghost var e := entries;
        var skip, fine := skips(|picks|), succeeds(|picks|);
        var r := AllocateNext(draws(|picks|), !skip && fine, e0, picks);
        if r == NULL {
          AllocatingEnd(e0, picks, entries);
          NoFreeFiles();
          OnDiskIsExist(e0, picks, skips, succeeds);
          return true, picks;
        }
        OutcomesMore(picks, e, r, entries, skips, succeeds);
        picks := picks + [r];
        if !skip && !fine {
          return false, picks;
        }
      }
    }

    lemma NoOutcomes(e: Entries, skips: nat -> bool, succeeds: nat -> bool)
      ensures Outcomes([], e, skips, succeeds)
    {
    }

    /** A file that was allocated is in the tree of existing files. */
    lemma OnDiskIsExist(e0: Entries, picks: seq<Ptr>, skips: nat -> bool, succeeds: nat -> bool)
      requires Valid() && Allocating(e0, picks, entries) && Outcomes(picks, entries, skips, succeeds)
      requires forall i :: 0 <= i < |picks| && !skips(i) ==> succeeds(i)
      ensures ExistFiles in trees
      ensures forall i :: 0 <= i < |picks| ==> (picks[i] in trees[ExistFiles].Order() <==> !skips(i))
    {
      hide Valid, AvlTree.Order;
      TreeMembers(ExistFiles);
      forall i | 0 <= i < |picks| ensures picks[i] in trees[ExistFiles].Order() <==> !skips(i) {
        assert picks[i] in picks;
      }
    }

    lemma NoFreeFiles()
      requires Valid() && FreeSet(entries) == {}
      ensures FreeFiles in trees && trees[FreeFiles].Order() == []
    {
      TreeMembers(FreeFiles);
      HomeOfFree();
    }

    /** Picking and releasing a file leaves a right counter right. */
    lemma AllocatingCount(s: State, p: Ptr, ok: bool)
      requires Enabled(s, FilesetSpec.Pick(p)) && s.idle[File] == |Idle(s.entries, File)|
      requires Enabled(Step(s, FilesetSpec.Pick(p)), FilesetSpec.Unbusy(p, true, ok, 0))
      ensures var t := Step(Step(s, FilesetSpec.Pick(p)), FilesetSpec.Unbusy(p, true, ok, 0));
        File in t.idle && t.idle[File] == |Idle(t.entries, File)|
    {
      StepIdle(s, FilesetSpec.Pick(p), File);
      StepIdle(Step(s, FilesetSpec.Pick(p)), FilesetSpec.Unbusy(p, true, ok, 0), File);
    }

    /** The taking of a named file in flowoplib_deletefile, entered once the file is not busy. */
    method GrabForDelete(p: Ptr)
      requires Valid() && Enabled(State(entries, idle), DeleteGrab(p))
      modifies this`entries, this`idle
      ensures Valid()
      ensures State(entries, idle) == Step(old(State(entries, idle)), DeleteGrab(p))
    {
      Grab(p, 1);
    }

    /** The taking of an open file in flowoplib_closefile, entered once the file is not busy. */
    method GrabForClose(p: Ptr)
      requires Valid() && Enabled(State(entries, idle), CloseGrab(p))
      modifies this`entries, this`idle
      ensures Valid()
      ensures State(entries, idle) == Step(old(State(entries, idle)), CloseGrab(p))
    {
      if entries[p].opens == 1 {
        Grab(p, 1);
      } else {
        Grab(p, 0);
      }
    }
  }
}
