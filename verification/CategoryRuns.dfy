/** Whole runs of calls on a hierarchy: what they do to it, as a value; which
    appenders they delete, and when an event can still reach a deleted one. */
module CategoryRuns {
  import opened AppenderOwnership
  import opened CategoryHierarchy

  // ----- the hierarchy as a value -----

  datatype State = State(cats: Members, deleted: multiset<Pointer>, received: multiset<(Pointer, string)>)

  ghost function TreeOf(cats: Members): (tree: Tree)
    ensures tree.Keys == cats.Keys
  {
    map n | n in cats :: Node(cats[n].priority, cats[n].additive, cats[n].slots.attached)
  }

  function SlotsOf(cats: Members): (all: map<string, Slots>)
    ensures all.Keys == cats.Keys
  {
    map n | n in cats :: cats[n].slots
  }

  ghost predicate Good(s: State) {
    Rooted(TreeOf(s.cats)) && forall n | n in s.cats :: s.cats[n].slots.Ok()
  }

  /** The priority a category inherits. */
  ghost function Chained(tree: Tree, name: string): (r: int)
    requires Rooted(tree) && name in tree
    ensures Inherits(tree, name, r)
    decreases |name|
  {
    if tree[name].priority < NOTSET then
      InheritsOwn(tree, name);
      tree[name].priority
    else
      var r := Chained(tree, ParentName(name));
      InheritsUp(tree, name, r);
      r
  }

  function NewMember(name: string): Member {
    Member(if name == "" then INFO else NOTSET, true, Slots({}, map[]))
  }

  /** The categories with those missing on the path. */
  function WithPath(cats: Members, name: string): Members {
    map n | n in cats.Keys + (set p | p in Path(name)) :: if n in cats then cats[n] else NewMember(n)
  }

  function Cleared(cats: Members): Members {
    map n | n in cats :: cats[n].(slots := Slots({}, map[]))
  }

  /** Everything owned under the names, as often as it is owned. */
  ghost function Deaths(all: map<string, Slots>, names: set<string>): multiset<Pointer>
    requires names <= all.Keys
    decreases |names|
  {
    if names == {} then multiset{}
    else
      var n :| n in names;
      multiset(all[n].Owned()) + Deaths(all, names - {n})
  }

  // ----- what a program does -----

  /** A call on a name that is not there does nothing. */
  datatype Act =
    | Get(name: string)
    | Prioritize(name: string, priority: int)
    | Additivity(name: string, additive: bool)
    | Change(name: string, op: Operation)
    | Send(name: string, priority: int, event: string)
    | ShutDown

  ghost function Effect(s: State, act: Act): State
    requires Good(s)
  {
    match act
    case Get(name) => s.(cats := WithPath(s.cats, name))
    case ShutDown => s.(cats := Cleared(s.cats), deleted := s.deleted + Deaths(SlotsOf(s.cats), s.cats.Keys))
    case _ => if act.name in s.cats then EffectOn(s, act) else s
  }

  ghost function EffectOn(s: State, act: Act): State
    requires Good(s) && !act.Get? && !act.ShutDown? && act.name in s.cats
  {
    var m := s.cats[act.name];
    match act
    case Prioritize(name, p) => if p >= NOTSET && name == "" then s else s.(cats := s.cats[name := m.(priority := p)])
    case Additivity(name, additive) => s.(cats := s.cats[name := m.(additive := additive)])
    case Change(name, op) =>
      s.(cats := s.cats[name := m.(slots := Apply(m.slots, op))], deleted := s.deleted + Deletes(m.slots, op))
    case Send(name, p, event) =>
      var tree := TreeOf(s.cats);
      if Chained(tree, name) >= p then s.(received := s.received + Reached(tree, name, event)) else s
  }

  /** getInstance of a name that is not there makes its category: the root, which starts
      with INFO, or one without a priority; either passes events on and has no appender. */
  lemma NewcomersAre(s: State, name: string)
    requires Good(s) && name !in s.cats
    ensures var r := Effect(s, Get(name)).cats;
      name in r && r[name] == Member(if name == "" then 600 else 800, true, Slots({}, map[]))
  {
    assert Path(name)[0] == name;
  }

  lemma {:induction false} PathIsClosed(name: string)
    ensures forall n | n in Path(name) && n != "" :: ParentName(n) in Path(name)
    decreases |name|
  {
    if name != "" { PathIsClosed(ParentName(name)); }
  }

  lemma EffectKeeps(s: State, act: Act)
    requires Good(s)
    ensures Good(Effect(s, act))
  {
    hide Path, ParentName, Reached, Chained, Apply, Deletes, Slots.Ok, Deaths;
    NothingIsOk();
    match act
    case Get(name) => PathIsClosed(name);
    case Change(name, op) => if name in s.cats { ApplyConserves(s.cats[name].slots, op); }
    case _ =>
  }

  /** A run of calls. */
  ghost function RunAll(s: State, acts: seq<Act>): (r: State)
    requires Good(s)
    ensures Good(r)
    decreases |acts|
  {
    if acts == [] then s
    else
      EffectKeeps(s, acts[0]);
      RunAll(Effect(s, acts[0]), acts[1..])
  }

  lemma {:induction false} RunMore(s: State, acts: seq<Act>, act: Act)
    requires Good(s)
    ensures RunAll(s, acts + [act]) == Effect(RunAll(s, acts), act)
    decreases |acts|
  {
    hide Good, Effect;
    EffectKeeps(s, (acts + [act])[0]);
    if acts == [] {
      assert [] + [act] == [act] && [act][1..] == [];
    } else {
      assert (acts + [act])[1..] == acts[1..] + [act];
      RunMore(Effect(s, acts[0]), acts[1..], act);
    }
  }

  // ----- how often an appender is deleted -----

  /** Under how many names a is owned. */
  ghost function OwnersOf(cats: Members, a: Pointer): nat {
    |Owners(SlotsOf(cats), cats.Keys, a)|
  }

  lemma OwnersWithout(all: map<string, Slots>, names: set<string>, n: string, a: Pointer)
    requires n in names && n in all
    ensures |Owners(all, names, a)| == |Owners(all, names - {n}, a)| + multiset(all[n].Owned())[a]
  {
    hide Slots.Owned;
    assert Owners(all, names, a) == Owners(all, names - {n}, a) + if a in all[n].Owned() then {n} else {};
  }

  lemma {:induction false} DeathsAreOwners(all: map<string, Slots>, names: set<string>, a: Pointer)
    requires names <= all.Keys
    ensures Deaths(all, names)[a] == |Owners(all, names, a)|
    decreases |names|
  {
    hide Slots.Owned;
    if names == {} {
      assert Owners(all, names, a) == {};
    } else {
      var n :| n in names && Deaths(all, names) == multiset(all[n].Owned()) + Deaths(all, names - {n});
      DeathsAreOwners(all, names - {n}, a);
      OwnersWithout(all, names, n, a);
    }
  }

  /** Whether the call hands a over and the category takes it. */
  function Taken(s: State, act: Act, a: Pointer): nat {
    if act.Change? && act.name in s.cats then Grants(s.cats[act.name].slots, act.op)[a] else 0
  }

  ghost function TakenIn(s: State, acts: seq<Act>, a: Pointer): nat
    requires Good(s)
    decreases |acts|
  {
    if acts == [] then 0
    else
      EffectKeeps(s, acts[0]);
      Taken(s, acts[0], a) + TakenIn(Effect(s, acts[0]), acts[1..], a)
  }

  lemma SlotsOnly(cats: Members, more: Members, a: Pointer)
    requires SlotsOf(cats) == SlotsOf(more)
    ensures OwnersOf(cats, a) == OwnersOf(more, a)
  {
    assert cats.Keys == SlotsOf(cats).Keys == SlotsOf(more).Keys == more.Keys;
  }

  lemma NoOwners(cats: Members, more: Members, a: Pointer)
    requires forall n | n in cats :: n in more && more[n] == cats[n]
    requires forall n | n in more && n !in cats :: more[n].slots == Slots({}, map[])
    ensures OwnersOf(cats, a) == OwnersOf(more, a)
  {
    NothingAttached();
    hide Slots.Owned;
    assert Owners(SlotsOf(cats), cats.Keys, a) == Owners(SlotsOf(more), more.Keys, a);
  }

  lemma ChangeOwners(cats: Members, n: string, slots: Slots, a: Pointer)
    requires n in cats
    ensures var more := cats[n := cats[n].(slots := slots)];
      OwnersOf(more, a) + multiset(cats[n].slots.Owned())[a] == OwnersOf(cats, a) + multiset(slots.Owned())[a]
  {
    hide Slots.Owned;
    var more := cats[n := cats[n].(slots := slots)];
    OwnersWithout(SlotsOf(cats), cats.Keys, n, a);
    OwnersWithout(SlotsOf(more), more.Keys, n, a);
    assert more.Keys == cats.Keys;
    assert Owners(SlotsOf(cats), cats.Keys - {n}, a) == Owners(SlotsOf(more), cats.Keys - {n}, a);
  }

  lemma ClearedOwners(cats: Members, a: Pointer)
    ensures OwnersOf(Cleared(cats), a) == 0
  {
    NothingAttached();
    hide Slots.Owned;
    assert Owners(SlotsOf(Cleared(cats)), cats.Keys, a) == {};
  }

  /** What is owned and what was deleted grow together by what is handed over and taken. */
  lemma EffectConserves(s: State, act: Act, a: Pointer)
    requires Good(s)
    ensures var r := Effect(s, act);
      r.deleted[a] + OwnersOf(r.cats, a) == s.deleted[a] + OwnersOf(s.cats, a) + Taken(s, act, a)
  {
    hide Owners, OwnersOf, Apply, Deletes, Grants, Slots.Owned, Slots.Ok, Rooted, Reached, Chained, TreeOf, Path, Deaths, Cleared;
    var r := Effect(s, act);
    match act
    case Get(name) => NoOwners(s.cats, r.cats, a);
    case ShutDown =>
      DeathsAreOwners(SlotsOf(s.cats), s.cats.Keys, a);
      ClearedOwners(s.cats, a);
      OwnersAre(s.cats, a);
    case Change(name, op) =>
      if name in s.cats {
        ApplyConserves(s.cats[name].slots, op);
        ChangeOwners(s.cats, name, Apply(s.cats[name].slots, op), a);
        BalanceAt(s.cats[name].slots, op, a);
      }
    case _ => SlotsOnly(s.cats, r.cats, a);
  }

  lemma OwnersAre(cats: Members, a: Pointer)
    ensures OwnersOf(cats, a) == |Owners(SlotsOf(cats), cats.Keys, a)|
  {
  }

  lemma BalanceAt(t: Slots, op: Operation, a: Pointer)
    requires t.Ok()
    ensures Deletes(t, op)[a] + multiset(Apply(t, op).Owned())[a] == multiset(t.Owned())[a] + Grants(t, op)[a]
  {
    ApplyConserves(t, op);
    hide Apply, Deletes, Grants, Slots.Owned;
    assert (Deletes(t, op) + multiset(Apply(t, op).Owned()))[a] == (multiset(t.Owned()) + Grants(t, op))[a];
  }

  /** Over every run, the hand-overs that categories took are what was deleted and
      what is owned, each as often as it happened. */
  lemma {:induction false} RunConservesAll(s: State, acts: seq<Act>, a: Pointer)
    requires Good(s)
    ensures var r := RunAll(s, acts);
      r.deleted[a] + OwnersOf(r.cats, a) == s.deleted[a] + OwnersOf(s.cats, a) + TakenIn(s, acts, a)
    decreases |acts|
  {
    hide Effect, Good, OwnersOf, Taken;
    if acts != [] {
      EffectKeeps(s, acts[0]);
      EffectConserves(s, acts[0], a);
      RunConservesAll(Effect(s, acts[0]), acts[1..], a);
    }
  }

  /** A program starts without categories. */
  const START: State := State(map[], multiset{}, multiset{})

  lemma StartIsGood()
    ensures Good(START) && forall a :: OwnersOf(START.cats, a) == 0
  {
    forall a ensures OwnersOf(START.cats, a) == 0 { assert Owners(SlotsOf(START.cats), START.cats.Keys, a) == {}; }
  }

  /** After shutdown an appender was deleted as often as some category took it: never
      more than once if and only if no two hand-overs were taken. */
  lemma DeletedAsTaken(acts: seq<Act>, a: Pointer)
    ensures Good(START) && RunAll(START, acts + [ShutDown]).deleted[a] == TakenIn(START, acts, a)
  {
    hide Effect, Good, OwnersOf, TakenIn;
    StartIsGood();
    var r := RunAll(START, acts);
    RunMore(START, acts, ShutDown);
    RunConservesAll(START, acts, a);
    EffectConserves(r, ShutDown, a);
    ShutDownOwners(r, a);
  }

  lemma ShutDownOwners(s: State, a: Pointer)
    requires Good(s)
    ensures OwnersOf(Effect(s, ShutDown).cats, a) == 0
  {
    ClearedOwners(s.cats, a);
  }

  lemma RunsOn(s: State, act: Act, acts: seq<Act>, a: Pointer)
    requires Good(s)
    ensures Good(Effect(s, act)) && RunAll(s, [act] + acts) == RunAll(Effect(s, act), acts)
    ensures TakenIn(s, [act] + acts, a) == Taken(s, act, a) + TakenIn(Effect(s, act), acts, a)
  {
    hide Effect, Good, Taken;
    EffectKeeps(s, act);
    assert ([act] + acts)[1..] == acts;
  }

  /** No category has an appender yet. */
  predicate Bare(cats: Members) {
    forall n | n in cats :: cats[n].slots == Slots({}, map[])
  }

  lemma GetMakes(s: State, name: string)
    requires Good(s) && Bare(s.cats)
    ensures var r := Effect(s, Get(name)); name in r.cats && s.cats.Keys <= r.cats.Keys && Bare(r.cats)
    ensures forall a :: Taken(s, Get(name), a) == 0
  {
    assert Path(name)[0] == name;
  }

  /** An appender handed over where it is not attached is taken; the other categories stay. */
  lemma HandOverIsTaken(s: State, n: string, a: Pointer)
    requires Good(s) && n in s.cats && a != 0 && a !in s.cats[n].slots.attached
    ensures Taken(s, Change(n, AddOwned(a)), a) == 1
    ensures var r := Effect(s, Change(n, AddOwned(a))).cats;
      r.Keys == s.cats.Keys && forall m | m in s.cats && m != n :: r[m] == s.cats[m]
  {
  }

  /** Two owners delete twice: an appender handed over under two names is deleted
      twice at shutdown. */
  lemma TwoOwnersDeleteTwice(n: string, m: string, a: Pointer)
    requires n != m && a != 0
    ensures Good(START)
    ensures RunAll(START, [Get(n), Get(m), Change(n, AddOwned(a)), Change(m, AddOwned(a))] + [ShutDown]).deleted[a] == 2
  {
    hide Good, RunAll, Effect, Taken, TakenIn;
    StartIsGood();
    var own1, own2 := Change(n, AddOwned(a)), Change(m, AddOwned(a));
    var acts := [Get(n), Get(m), own1, own2];
    DeletedAsTaken(acts, a);
    assert acts == [Get(n)] + ([Get(m)] + ([own1] + ([own2] + [])));
    GetMakes(START, n);
    RunsOn(START, Get(n), [Get(m)] + ([own1] + ([own2] + [])), a);
    var s1 := Effect(START, Get(n));
    GetMakes(s1, m);
    RunsOn(s1, Get(m), [own1] + ([own2] + []), a);
    var s2 := Effect(s1, Get(m));
    HandOverIsTaken(s2, n, a);
    RunsOn(s2, own1, [own2] + [], a);
    var s3 := Effect(s2, own1);
    HandOverIsTaken(s3, m, a);
    RunsOn(s3, own2, [], a);
    NothingTaken(Effect(s3, own2), a);
  }

  lemma NothingTaken(s: State, a: Pointer)
    requires Good(s)
    ensures TakenIn(s, [], a) == 0
  {
  }

  // ----- when an event can reach a deleted appender -----

  /** Deleted, and still attached somewhere. */
  predicate Dangling(s: State, a: Pointer) {
    s.deleted[a] > 0 && exists n | n in s.cats :: a in s.cats[n].slots.attached
  }

  /** The call sends an event, and it goes to a though a was deleted. */
  ghost predicate Misdelivers(s: State, act: Act, a: Pointer)
    requires Good(s)
  {
    && act.Send? && act.name in s.cats && Chained(TreeOf(s.cats), act.name) >= act.priority
    && s.deleted[a] > 0 && (a, act.event) in Reached(TreeOf(s.cats), act.name, act.event)
  }

  lemma {:induction false} ReachedIsAttached(tree: Tree, name: string, event: string, a: Pointer)
    requires Rooted(tree) && name in tree && (a, event) in Reached(tree, name, event)
    ensures exists n | n in tree :: a in tree[n].attached
    decreases |name|
  {
    if (a, event) !in Each(tree[name].attached, event) { ReachedIsAttached(tree, ParentName(name), event, a); }
  }

  /** Some event would go to a deleted appender if and only if one is still attached somewhere. */
  lemma DanglingIsHeard(s: State, a: Pointer)
    requires Good(s)
    ensures (exists act :: Misdelivers(s, act, a)) <==> Dangling(s, a)
  {
    hide Chained, Rooted;
    var tree := TreeOf(s.cats);
    if act :| Misdelivers(s, act, a) {
      ReachedIsAttached(tree, act.name, act.event, a);
      var n :| n in tree && a in tree[n].attached;
      assert a in s.cats[n].slots.attached;
    }
    if Dangling(s, a) {
      var n :| n in s.cats && a in s.cats[n].slots.attached;
      assert (a, "") in Each(tree[n].attached, "");
      assert Misdelivers(s, Send(n, Chained(tree, n), ""), a);
    }
  }

  /** An owner deletes a while another category has it attached, or a is attached
      again after it was deleted. */
  predicate Endangers(s: State, act: Act, a: Pointer) {
    && act.Change? && act.name in s.cats
    && var t := s.cats[act.name].slots;
    || (Deletes(t, act.op)[a] > 0 && exists n | n in s.cats && n != act.name :: a in s.cats[n].slots.attached)
    || (s.deleted[a] > 0 && a !in t.attached && a in Apply(t, act.op).attached)
  }

  lemma DeletedIsDetached(t: Slots, op: Operation, a: Pointer)
    requires t.Ok()
    ensures Deletes(t, op)[a] > 0 ==> a in t.attached && a !in Apply(t, op).attached
  {
  }

  lemma ChangeDangles(s: State, n: string, op: Operation, a: Pointer)
    requires Good(s) && !Dangling(s, a) && n in s.cats
    ensures Dangling(Effect(s, Change(n, op)), a) <==> Endangers(s, Change(n, op), a)
  {
    hide Apply, Deletes, Slots.Ok;
    var t := s.cats[n].slots;
    DeletedIsDetached(t, op, a);
    var r := Effect(s, Change(n, op));
    assert r.cats[n].slots == Apply(t, op) && r.deleted == s.deleted + Deletes(t, op);
    assert forall m | m in s.cats && m != n :: r.cats[m] == s.cats[m];
  }

  lemma DanglesExactly(s: State, act: Act, a: Pointer)
    requires Good(s) && !Dangling(s, a)
    ensures Dangling(Effect(s, act), a) <==> Endangers(s, act, a)
  {
    hide Good, Apply, Deletes, Slots.Owned, Reached, Chained, TreeOf, Path, Deaths;
    if act.Change? {
      if act.name in s.cats { ChangeDangles(s, act.name, act.op, a); }
    } else {
      var r := Effect(s, act);
      assert forall n | n in r.cats && a in r.cats[n].slots.attached :: n in s.cats && s.cats[n].slots == r.cats[n].slots;
      assert !act.ShutDown? ==> r.deleted == s.deleted;
    }
  }

  /** At some moment of the run an event could be sent that goes to a although a was deleted. */
  ghost predicate CanMisdeliver(s: State, acts: seq<Act>, a: Pointer)
    requires Good(s)
    decreases |acts|
  {
    || (exists act :: Misdelivers(s, act, a))
    || (acts != [] && (EffectKeeps(s, acts[0]); CanMisdeliver(Effect(s, acts[0]), acts[1..], a)))
  }

  ghost predicate Endangered(s: State, acts: seq<Act>, a: Pointer)
    requires Good(s)
    decreases |acts|
  {
    acts != [] && (EffectKeeps(s, acts[0]); Endangers(s, acts[0], a) || Endangered(Effect(s, acts[0]), acts[1..], a))
  }

  /** The run itself sends such an event. */
  ghost predicate Misdelivering(s: State, acts: seq<Act>, a: Pointer)
    requires Good(s)
    decreases |acts|
  {
    acts != [] && (EffectKeeps(s, acts[0]); Misdelivers(s, acts[0], a) || Misdelivering(Effect(s, acts[0]), acts[1..], a))
  }

  lemma {:induction false} MisdeliversExactly(s: State, acts: seq<Act>, a: Pointer)
    requires Good(s) && !Dangling(s, a)
    ensures CanMisdeliver(s, acts, a) <==> Endangered(s, acts, a)
    ensures Misdelivering(s, acts, a) ==> Endangered(s, acts, a)
    decreases |acts|
  {
    hide Good, Effect, Misdelivers, Endangers, Dangling;
    DanglingIsHeard(s, a);
    if acts != [] {
      var r := Effect(s, acts[0]);
      EffectKeeps(s, acts[0]);
      DanglesExactly(s, acts[0], a);
      if Endangers(s, acts[0], a) {
        DanglingIsHeard(r, a);
        var act :| Misdelivers(r, act, a);
        assert CanMisdeliver(r, acts[1..], a);
      } else {
        MisdeliversExactly(r, acts[1..], a);
      }
    }
  }

  lemma ChangeIs(s: State, n: string, op: Operation)
    requires Good(s) && n in s.cats
    ensures var r := Effect(s, Change(n, op));
      && Good(r) && r.deleted == s.deleted + Deletes(s.cats[n].slots, op)
      && r.cats.Keys == s.cats.Keys && r.cats[n].slots == Apply(s.cats[n].slots, op)
      && forall m | m in s.cats && m != n :: r.cats[m] == s.cats[m]
  {
    hide Apply, Deletes, Good;
    EffectKeeps(s, Change(n, op));
  }

  /** An appender that one category owns and another has borrowed: once the owner
      has let go of it, events go to it though it is deleted. */
  lemma LentOutlivesItsOwner(s: State, n: string, m: string, a: Pointer)
    requires Good(s) && Bare(s.cats) && n in s.cats && m in s.cats && n != m && a != 0
    ensures var r := RunAll(s, [Change(n, AddOwned(a)), Change(m, AddBorrowed(a)), Change(n, RemoveAll)]);
      exists act :: Misdelivers(r, act, a)
  {
    hide Good, Effect, Misdelivers, RunAll;
    var own, lend, drop := Change(n, AddOwned(a)), Change(m, AddBorrowed(a)), Change(n, RemoveAll);
    ChangeIs(s, n, own.op);
    var s1 := Effect(s, own);
    ChangeIs(s1, m, lend.op);
    var s2 := Effect(s1, lend);
    ChangeIs(s2, n, drop.op);
    var s3 := Effect(s2, drop);
    assert [own, lend, drop] == [own] + ([lend] + ([drop] + []));
    RunsOn(s, own, [lend] + ([drop] + []), a);
    RunsOn(s1, lend, [drop] + [], a);
    RunsOn(s2, drop, [], a);
    RunEmptyIs(s3);
    assert s2.cats[n].slots == Slots({a}, map[a := true]) && a in s2.cats[n].slots.Owned();
    assert a in s3.cats[m].slots.attached && s3.deleted[a] > 0;
    DanglingIsHeard(s3, a);
  }

  lemma RunEmptyIs(s: State)
    requires Good(s)
    ensures RunAll(s, []) == s
  {
  }

  // ----- the calls themselves -----

  ghost function StateOf(h: HierarchyMaintainer, heap: Appenders): State
    reads h, h.Categories(), heap
  {
    State(h.Members(), heap.deleted, heap.received)
  }

  lemma TreeIs(h: HierarchyMaintainer)
    ensures TreeOf(h.Members()) == h.Tree()
  {
    forall n | n in h.categoryMap ensures TreeOf(h.Members())[n] == h.Tree()[n] {
      assert h.Members()[n] == h.categoryMap[n].Value();
    }
  }

  lemma SlotsAre(h: HierarchyMaintainer)
    ensures SlotsOf(h.Members()) == h.All()
  {
    forall n | n in h.categoryMap ensures SlotsOf(h.Members())[n] == h.All()[n] {
      assert h.Members()[n] == h.categoryMap[n].Value();
    }
  }

  lemma AllOk(h: HierarchyMaintainer)
    requires h.Valid()
    ensures forall n | n in h.categoryMap :: h.categoryMap[n].Contents().Ok()
  {
    hide Slots.Ok;
    forall n | n in h.categoryMap ensures h.categoryMap[n].Contents().Ok() { assert h.Placed(n); }
  }

  lemma ValidIsGood(h: HierarchyMaintainer, heap: Appenders)
    requires h.Valid()
    ensures Good(StateOf(h, heap)) && TreeOf(h.Members()) == h.Tree() && SlotsOf(h.Members()) == h.All()
  {
    hide Slots.Ok, Rooted, TreeOf, SlotsOf, HierarchyMaintainer.Placed;
    TreeIs(h);
    SlotsAre(h);
    AllOk(h);
    h.RootedTree();
  }

  method Perform(h: HierarchyMaintainer, act: Act, heap: Appenders)
    requires h.Valid()
    modifies h, h.Categories(), heap
    ensures h.Valid() && fresh(h.Categories() - old(h.Categories()))
    ensures forall n | n in old(h.categoryMap) :: n in h.categoryMap && h.categoryMap[n] == old(h.categoryMap[n])
    ensures Good(old(StateOf(h, heap))) && StateOf(h, heap) == Effect(old(StateOf(h, heap)), act)
  {
    hide Effect, EffectOn, Good, HierarchyMaintainer.Placed, Slots.Ok, WithPath, Cleared, Deaths, SlotsOf, TreeOf;
    ValidIsGood(h, heap);
    EffectIs(StateOf(h, heap), act);
    match act
    case Get(name) => GetOne(h, name, heap);
    case ShutDown => ShutDownAll(h, heap);
    case _ =>
      if act.name in h.categoryMap {
        h.Existing(act.name);
        PerformOn(h, h.categoryMap[act.name], act, heap);
      }
  }

  lemma EffectIs(s: State, act: Act)
    requires Good(s)
    ensures Effect(s, act) ==
      if act.Get? then s.(cats := WithPath(s.cats, act.name))
      else if act.ShutDown? then s.(cats := Cleared(s.cats), deleted := s.deleted + Deaths(SlotsOf(s.cats), s.cats.Keys))
      else if act.name in s.cats then EffectOn(s, act) else s
  {
  }

  method GetOne(h: HierarchyMaintainer, name: string, heap: Appenders)
    requires h.Valid()
    modifies h
    ensures h.Valid() && fresh(h.Categories() - old(h.Categories()))
    ensures forall n | n in old(h.categoryMap) :: n in h.categoryMap && h.categoryMap[n] == old(h.categoryMap[n])
    ensures h.Members() == WithPath(old(h.Members()), name)
  {
    hide HierarchyMaintainer.Placed, Path, Slots.Ok, ParentName;
    var _ := h.GetInstance(name);
    forall n | n in h.categoryMap ensures WithPath(old(h.Members()), name)[n] == h.categoryMap[n].Value() {
      h.Existing(n);
      if n in old(h.categoryMap) { assert h.categoryMap[n].Value() == old(h.categoryMap[n].Value()); }
    }
    h.MembersIs(WithPath(old(h.Members()), name));
  }

  lemma DeathsAre(all: map<string, Slots>, before: multiset<Pointer>, now: multiset<Pointer>)
    requires forall a :: now[a] == before[a] + |Owners(all, all.Keys, a)|
    ensures now == before + Deaths(all, all.Keys)
  {
    forall a ensures now[a] == (before + Deaths(all, all.Keys))[a] { DeathsAreOwners(all, all.Keys, a); }
  }

  method ShutDownAll(h: HierarchyMaintainer, heap: Appenders)
    requires h.Valid()
    modifies h.Categories(), heap`deleted
    ensures h.Valid() && h.categoryMap == old(h.categoryMap)
    ensures h.Members() == Cleared(old(h.Members()))
    ensures heap.deleted == old(heap.deleted) + Deaths(SlotsOf(old(h.Members())), old(h.Members()).Keys)
  {
    hide HierarchyMaintainer.Placed, HierarchyMaintainer.Members, Slots.Ok, Slots.Owned, Deaths, Owners, Cleared, SlotsOf;
    SlotsAre(h);
    ValuesAre(h);
    ghost var all, cats := h.All(), h.Members();
    h.Shutdown(heap);
    DeathsAre(all, old(heap.deleted), heap.deleted);
    AllEmpty(h, all);
    ClearedIs(h, cats);
  }

  lemma ValuesAre(h: HierarchyMaintainer)
    ensures forall n | n in h.categoryMap :: h.Members()[n] == h.categoryMap[n].Value()
  {
  }

  lemma AllEmpty(h: HierarchyMaintainer, all: map<string, Slots>)
    requires h.All() == Emptied(all, {})
    ensures forall n | n in h.categoryMap :: h.categoryMap[n].Contents() == Slots({}, map[])
  {
    forall n | n in h.categoryMap ensures h.categoryMap[n].Contents() == Slots({}, map[]) { assert h.All()[n] == Slots({}, map[]); }
  }

  lemma ClearedIs(h: HierarchyMaintainer, cats: Members)
    requires cats.Keys == h.categoryMap.Keys
    requires forall n | n in h.categoryMap :: h.categoryMap[n].Value() == cats[n].(slots := Slots({}, map[]))
    ensures h.Members() == Cleared(cats)
  {
    h.MembersIs(Cleared(cats));
  }

  method OnPriority(h: HierarchyMaintainer, c: Category, priority: int)
    requires h.Valid() && h.Has(c)
    modifies c
    ensures h.Valid() && h.categoryMap == old(h.categoryMap)
    ensures h.Members() == old(h.Members())[c.name := c.Value()]
    ensures c.Value() == old(c.Value()).(priority := if priority >= NOTSET && c.name == "" then old(c.priority) else priority)
  {
    hide HierarchyMaintainer.Placed, HierarchyMaintainer.Members, Slots.Ok;
    h.Rules(c);
    h.Above(c);
    assert h as object != c;
    var _ := c.SetPriority(priority);
    h.StaysValid(c);
    h.OneChanged(c);
  }

  method OnAdditivity(h: HierarchyMaintainer, c: Category, additive: bool)
    requires h.Valid() && h.Has(c)
    modifies c
    ensures h.Valid() && h.categoryMap == old(h.categoryMap)
    ensures h.Members() == old(h.Members())[c.name := c.Value()]
    ensures c.Value() == old(c.Value()).(additive := additive)
  {
    hide HierarchyMaintainer.Placed, HierarchyMaintainer.Members, Slots.Ok;
    h.Rules(c);
    assert h as object != c;
    c.SetAdditivity(additive);
    h.StaysValid(c);
    h.OneChanged(c);
  }

  method OnAppenders(c: Category, op: Operation, heap: Appenders)
    requires c.Contents().Ok()
    modifies c, heap`deleted
    ensures c.Value() == old(c.Value()).(slots := Apply(old(c.Contents()), op))
    ensures heap.deleted == old(heap.deleted) + Deletes(old(c.Contents()), op)
  {
    assert heap as object != c;
    match op
    case AddOwned(a) => var _ := c.AddAppender(a);
    case AddBorrowed(a) => if a != 0 { c.AddAppenderReference(a); }
    case RemoveOne(a) => c.RemoveAppender(a, heap);
    case RemoveAll => c.RemoveAllAppenders(heap);
  }

  method OnChange(h: HierarchyMaintainer, c: Category, op: Operation, heap: Appenders)
    requires h.Valid() && h.Has(c)
    modifies c, heap`deleted
    ensures h.Valid() && h.categoryMap == old(h.categoryMap)
    ensures h.Members() == old(h.Members())[c.name := c.Value()]
    ensures c.Value() == old(c.Value()).(slots := Apply(old(c.Contents()), op))
    ensures heap.deleted == old(heap.deleted) + Deletes(old(c.Contents()), op)
  {
    hide HierarchyMaintainer.Placed, HierarchyMaintainer.Members, Slots.Ok, Apply, Deletes;
    h.Rules(c);
    ApplyConserves(c.Contents(), op);
    assert h as object != heap && h as object != c;
    OnAppenders(c, op, heap);
    h.StaysValid(c);
    h.OneChanged(c);
  }

  method OnLog(h: HierarchyMaintainer, c: Category, priority: int, event: string, heap: Appenders)
    requires h.Valid() && h.Has(c)
    modifies heap`received
    ensures h.Valid() && h.categoryMap == old(h.categoryMap) && h.Members() == old(h.Members())
    ensures Rooted(old(h.Tree())) && heap.received == old(heap.received)
      + if Chained(old(h.Tree()), c.name) >= priority then Reached(old(h.Tree()), c.name, event) else multiset{}
  {
    hide Reached, Inherits, Rooted, HierarchyMaintainer.Placed, HierarchyMaintainer.Audience, Slots.Ok;
    InheritedIs(h, c, event);
    assert forall o: object | o in h.Categories() :: o != heap;
    assert h as object != heap;
    c.Log(priority, event, heap, h);
  }

  lemma InheritedIs(h: HierarchyMaintainer, c: Category, event: string)
    requires h.Valid() && h.Has(c)
    ensures Rooted(h.Tree()) && h.Audience(c.name, event) == Reached(h.Tree(), c.name, event)
    ensures forall r | Inherits(h.Tree(), c.name, r) :: r == Chained(h.Tree(), c.name)
  {
    hide Reached, Inherits, Rooted, Slots.Ok;
    h.RootedTree();
    OneIsInherited(h.Tree(), c.name);
    var _ := Chained(h.Tree(), c.name);
  }

  method PerformOn(h: HierarchyMaintainer, c: Category, act: Act, heap: Appenders)
    requires h.Valid() && h.Has(c) && !act.Get? && !act.ShutDown? && act.name == c.name
    modifies c, heap
    ensures h.Valid() && h.categoryMap == old(h.categoryMap)
    ensures Good(old(StateOf(h, heap))) && StateOf(h, heap) == EffectOn(old(StateOf(h, heap)), act)
  {
    hide HierarchyMaintainer.Placed, HierarchyMaintainer.Members, HierarchyMaintainer.Tree, HierarchyMaintainer.All, Slots.Ok;
    hide Apply, Deletes, Good, Reached, Chained, Rooted, TreeOf, SlotsOf, ParentName;
    ValidIsGood(h, heap);
    ValueOf(h, c);
    assert h as object != heap && h as object != c && heap as object != c;
    match act
    case Prioritize(_, priority) => OnPriority(h, c, priority);
    case Additivity(_, additive) => OnAdditivity(h, c, additive);
    case Change(_, op) => OnChange(h, c, op, heap);
    case Send(_, priority, event) => OnLog(h, c, priority, event, heap);
  }

  lemma ValueOf(h: HierarchyMaintainer, c: Category)
    requires h.Has(c)
    ensures c.name in h.categoryMap && h.Members()[c.name] == c.Value() && c.Value().slots == c.Contents()
  {
  }

  /** Every run of calls keeps the hierarchy: its parents, a priority of the root's own,
      and every name its category; and it does to categories, appenders and events
      what the run on values does. */
  method PerformAll(h: HierarchyMaintainer, acts: seq<Act>, heap: Appenders)
    requires h.Valid()
    modifies h, h.Categories(), heap
    ensures h.Valid() && Rooted(h.Tree())
    ensures forall n | n in old(h.categoryMap) :: n in h.categoryMap && h.categoryMap[n] == old(h.categoryMap[n])
    ensures Good(old(StateOf(h, heap))) && StateOf(h, heap) == RunAll(old(StateOf(h, heap)), acts)
  {
    hide Effect, Good, RunAll, StateOf, HierarchyMaintainer.Placed, Slots.Ok;
    ValidIsGood(h, heap);
    ghost var start := StateOf(h, heap);
    assert acts[..0] == [];
    RunEmptyIs(start);
    for i := 0 to |acts|
      invariant h.Valid() && fresh(h.Categories() - old(h.Categories()))
      invariant forall n | n in old(h.categoryMap) :: n in h.categoryMap && h.categoryMap[n] == old(h.categoryMap[n])
      invariant Good(start) && StateOf(h, heap) == RunAll(start, acts[..i])
    {
      RunMore(start, acts[..i], acts[i]);
      assert acts[..i + 1] == acts[..i] + [acts[i]];
      Perform(h, acts[i], heap);
    }
    assert acts[..|acts|] == acts;
    h.RootedTree();
  }
}
