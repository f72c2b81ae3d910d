/** HierarchyMaintainer and Category: the tree of named categories, inherited
    priorities, and who gets an event. */
module CategoryHierarchy {
  import opened AppenderOwnership
  import opened Strings

  const INFO: int := 600
  const NOTSET: int := 800

  // ----- names -----

  function ParentName(name: string): (p: string)
    ensures name != "" ==> |p| < |name|
  {
    var dot := FindLast(name, '.');
    if dot < 0 then "" else name[..dot]
  }

  /** A name, its parent's, and so on up to the root, whose name is empty. */
  function Path(name: string): (p: seq<string>)
    ensures |p| > 0 && p[0] == name && p[|p| - 1] == ""
    decreases |name|
  {
    if name == "" then [""] else [name] + Path(ParentName(name))
  }

  /** The parent's name and what follows its dot make up the name. */
  lemma ParentIsPrefix(name: string)
    ensures '.' in name ==> exists last | '.' !in last :: name == ParentName(name) + "." + last
    ensures '.' !in name ==> ParentName(name) == ""
  {
    var dot := FindLast(name, '.');
    if '.' in name {
      var k :| 0 <= k < |name| && name[k] == '.';
      var last := name[dot + 1..];
      assert '.' !in last && name == ParentName(name) + "." + last;
    }
  }

  // ----- what is inherited, on values -----

  /** The state of one category that others depend on. */
  datatype Node = Node(priority: int, additive: bool, attached: set<Pointer>)

  /** The categories there are, by name. */
  type Tree = map<string, Node>

  /** Every category's parent is there, and the root has a priority. */
  ghost predicate Rooted(tree: Tree) {
    && (forall n | n in tree && n != "" :: ParentName(n) in tree)
    && ("" in tree ==> tree[""].priority < NOTSET)
  }

  /** r is the priority of the i-th on the path, the first that has one. */
  ghost predicate InheritsAt(tree: Tree, name: string, i: nat, r: int) {
    && i < |Path(name)| && Path(name)[i] in tree && tree[Path(name)[i]].priority == r < NOTSET
    && forall j | 0 <= j < i :: Path(name)[j] in tree && tree[Path(name)[j]].priority >= NOTSET
  }

  ghost predicate Inherits(tree: Tree, name: string, r: int) {
    exists i: nat :: InheritsAt(tree, name, i, r)
  }

  lemma InheritsOwn(tree: Tree, name: string)
    requires name in tree && tree[name].priority < NOTSET
    ensures Inherits(tree, name, tree[name].priority)
  {
    assert InheritsAt(tree, name, 0, tree[name].priority);
  }

  lemma InheritsUp(tree: Tree, name: string, r: int)
    requires name in tree && tree[name].priority >= NOTSET && name != "" && Inherits(tree, ParentName(name), r)
    ensures Inherits(tree, name, r)
  {
    var i: nat :| InheritsAt(tree, ParentName(name), i, r);
    assert Path(name) == [name] + Path(ParentName(name));
    assert InheritsAt(tree, name, i + 1, r);
  }

  /** There is one priority to inherit, and no other. */
  lemma {:induction false} OneIsInherited(tree: Tree, name: string)
    requires Rooted(tree) && name in tree
    ensures exists r :: Inherits(tree, name, r)
    ensures forall r, s | Inherits(tree, name, r) && Inherits(tree, name, s) :: r == s
    decreases |name|
  {
    if tree[name].priority < NOTSET {
      InheritsOwn(tree, name);
    } else {
      OneIsInherited(tree, ParentName(name));
      var r :| Inherits(tree, ParentName(name), r);
      InheritsUp(tree, name, r);
    }
    forall r, s | Inherits(tree, name, r) && Inherits(tree, name, s) ensures r == s {
      var i: nat :| InheritsAt(tree, name, i, r);
      var j: nat :| InheritsAt(tree, name, j, s);
      assert i == j;
    }
  }

  ghost function Each(attached: set<Pointer>, event: string): set<(Pointer, string)> {
    set a | a in attached :: (a, event)
  }

  /** Who gets an event of a category. */
  ghost function Reached(tree: Tree, name: string, event: string): multiset<(Pointer, string)>
    requires Rooted(tree) && name in tree
    decreases |name|
  {
    multiset(Each(tree[name].attached, event))
    + if tree[name].additive && name != "" then Reached(tree, ParentName(name), event) else multiset{}
  }

  /** Every appender attached under one of the names, as often as it is. */
  ghost function Attached(tree: Tree, names: seq<string>, event: string): multiset<(Pointer, string)>
    requires forall n | n in names :: n in tree
  {
    if names == [] then multiset{} else multiset(Each(tree[names[0]].attached, event)) + Attached(tree, names[1..], event)
  }

  /** The i-th on the path is the first that is not additive, or else the root. */
  ghost predicate ClosesAt(tree: Tree, name: string, i: nat) {
    && i < |Path(name)| && (forall j | 0 <= j <= i :: Path(name)[j] in tree)
    && (!tree[Path(name)[i]].additive || i == |Path(name)| - 1)
    && forall j | 0 <= j < i :: tree[Path(name)[j]].additive
  }

  lemma ClosesHere(tree: Tree, name: string)
    requires name in tree && (!tree[name].additive || name == "")
    ensures ClosesAt(tree, name, 0)
  {
  }

  lemma ClosesUp(tree: Tree, name: string, i: nat)
    requires name in tree && name != "" && tree[name].additive && ClosesAt(tree, ParentName(name), i)
    ensures ClosesAt(tree, name, i + 1)
  {
    assert Path(name) == [name] + Path(ParentName(name));
  }

  lemma ClosesIn(tree: Tree, name: string, i: nat)
    requires ClosesAt(tree, name, i)
    ensures i < |Path(name)| && forall n | n in Path(name)[..i + 1] :: n in tree
  {
  }

  lemma ParentIsThere(tree: Tree, name: string)
    requires Rooted(tree) && name in tree && name != ""
    ensures ParentName(name) in tree
  {
  }

  /** They are the appenders on the path up to the first that is not additive, and no others. */
  lemma {:induction false} ReachedIsThePath(tree: Tree, name: string, event: string) returns (i: nat)
    requires Rooted(tree) && name in tree
    ensures ClosesAt(tree, name, i) && Reached(tree, name, event) == Attached(tree, Path(name)[..i + 1], event)
    decreases |name|
  {
    hide Rooted, Each, ParentName, ClosesAt;
    var own := multiset(Each(tree[name].attached, event));
    if name != "" { ParentIsThere(tree, name); }
    if tree[name].additive && name != "" {
      var up := ParentName(name);
      i := ReachedIsThePath(tree, up, event);
      ClosesIn(tree, up, i);
      assert Path(name) == [name] + Path(up);
      assert Path(name)[..i + 2] == [name] + Path(up)[..i + 1];
      assert Path(name)[..i + 2][1..] == Path(up)[..i + 1];
      ClosesUp(tree, name, i);
      ClosesIn(tree, name, i + 1);
      i := i + 1;
    } else {
      i := 0;
      ClosesHere(tree, name);
      assert Path(name)[..1] == [name];
      assert Attached(tree, [name], event) == own + Attached(tree, [], event);
    }
  }

  /** The same categories, and perhaps more. */
  ghost predicate Grown(tree: Tree, more: Tree) {
    forall n | n in tree :: n in more && more[n] == tree[n]
  }

  /** Categories made later change nothing for those that are there. */
  lemma {:induction false} NewcomersDoNotMatter(tree: Tree, more: Tree, name: string, event: string)
    requires Rooted(tree) && Rooted(more) && Grown(tree, more) && name in tree
    ensures Reached(more, name, event) == Reached(tree, name, event)
    ensures forall r :: Inherits(more, name, r) <==> Inherits(tree, name, r)
    decreases |name|
  {
    hide Inherits, Each, InheritsAt;
    if name != "" { NewcomersDoNotMatter(tree, more, ParentName(name), event); }
    if tree[name].priority < NOTSET {
      InheritsOwn(tree, name);
      InheritsOwn(more, name);
    } else {
      forall r ensures Inherits(tree, ParentName(name), r) ==> Inherits(tree, name, r) && Inherits(more, name, r) {
        if Inherits(tree, ParentName(name), r) { InheritsUp(tree, name, r); InheritsUp(more, name, r); }
      }
      OneIsInherited(tree, ParentName(name));
    }
    OneIsInherited(tree, name);
    OneIsInherited(more, name);
  }

  // ----- the appenders' side -----

  /** The heap of appenders, as far as categories act on it: destructor calls and
      doAppend calls, with how often each was made. */
  class Appenders {
    var deleted: multiset<Pointer>
    var received: multiset<(Pointer, string)>

    method Delete(a: Pointer)
      modifies this`deleted
      ensures deleted == old(deleted) + multiset{a}
    {
      deleted := deleted + multiset{a};
    }

    method DoAppend(a: Pointer, event: string)
      modifies this`received
      ensures received == old(received) + multiset{(a, event)}
    {
      received := received + multiset{(a, event)};
    }
  }

  lemma DoneWith(all: set<Pointer>, todo: set<Pointer>, owns: set<Pointer>, a: Pointer)
    requires todo <= all && a in todo
    ensures multiset((all - (todo - {a})) * owns) == multiset((all - todo) * owns) + if a in owns then multiset{a} else multiset{}
  {
    if a in owns {
      assert (all - (todo - {a})) * owns == (all - todo) * owns + {a};
    } else {
      assert (all - (todo - {a})) * owns == (all - todo) * owns;
    }
  }

  /** A category without its name and parent, as a value. */
  datatype Member = Member(priority: int, additive: bool, slots: Slots)

  type Members = map<string, Member>

  class Category {
    const name: string
    const parent: Category?
    var priority: int
    var isAdditive: bool
    var attached: set<Pointer>
    var ownsAppender: map<Pointer, bool>

    constructor (name: string, parent: Category?, priority: int)
      ensures this.name == name && this.parent == parent && this.priority == priority && isAdditive
      ensures Contents() == Slots({}, map[])
    {
      this.name, this.parent, this.priority, isAdditive := name, parent, priority, true;
      attached, ownsAppender := {}, map[];
    }

    ghost function Contents(): Slots
      reads this
    {
      Slots(attached, ownsAppender)
    }

    ghost function Value(): Member
      reads this
    {
      Member(priority, isAdditive, Contents())
    }

    ghost predicate IsNew()
      reads this
    {
      Contents() == Slots({}, map[]) && isAdditive && priority == if name == "" then INFO else NOTSET
    }

    /** Only the root, which has no parent, refuses NOTSET. */
    method SetPriority(priority: int) returns (thrown: bool)
      modifies this`priority
      ensures thrown <==> priority >= NOTSET && parent == null
      ensures this.priority == if thrown then old(this.priority) else priority
    {
      if priority < NOTSET || parent != null {
        this.priority := priority;
        thrown := false;
      } else {
        thrown := true;
      }
    }

    method SetAdditivity(additivity: bool)
      modifies this`isAdditive
      ensures isAdditive == additivity
    {
      isAdditive := additivity;
    }

    method AddAppender(a: Pointer) returns (thrown: bool)
      modifies this`attached, this`ownsAppender
      ensures thrown == (a == 0)
      ensures Contents() == Apply(old(Contents()), AddOwned(a))
    {
      thrown := a == 0;
      if !thrown && a !in attached {
        attached := attached + {a};
        ownsAppender := ownsAppender[a := true];
      }
    }

    method AddAppenderReference(a: Pointer)
      requires a != 0
      modifies this`attached, this`ownsAppender
      ensures Contents() == Apply(old(Contents()), AddBorrowed(a))
    {
      if a !in attached {
        attached := attached + {a};
        ownsAppender := ownsAppender[a := false];
      }
    }

    method RemoveAppender(a: Pointer, heap: Appenders)
      requires Contents().Ok()
      modifies this`attached, this`ownsAppender, heap`deleted
      ensures Contents() == Apply(old(Contents()), RemoveOne(a))
      ensures heap.deleted == old(heap.deleted) + Deletes(old(Contents()), RemoveOne(a))
    {
      if a in attached {
        var owned := OwnsAppender(a);
        if owned {
          ownsAppender := ownsAppender - {a};
          heap.Delete(a);
        }
        attached := attached - {a};
      }
    }

    method OwnsAppender(a: Pointer) returns (owned: bool)
      requires Contents().Ok()
      ensures owned <==> a in Contents().Owned()
    {
      owned := false;
      if a != 0 && a in ownsAppender {
        owned := ownsAppender[a];
      }
    }

    method RemoveAllAppenders(heap: Appenders)
      requires Contents().Ok()
      modifies this`attached, this`ownsAppender, heap`deleted
      ensures Contents() == Apply(old(Contents()), RemoveAll)
      ensures heap.deleted == old(heap.deleted) + Deletes(old(Contents()), RemoveAll)
    {
      var todo := attached;
      ghost var owns := Contents().Owned();
      while todo != {}
        invariant todo <= attached && Contents() == old(Contents())
        invariant heap.deleted == old(heap.deleted) + multiset((attached - todo) * owns)
        decreases |todo|
      {
        var a :| a in todo;
        var owned := OwnsAppender(a);
        DoneWith(attached, todo, owns, a);
        todo := todo - {a};
        if owned {
          heap.Delete(a);
        }
      }
      assert (attached - todo) * owns == attached * owns;
      ownsAppender := map[];
      attached := {};
    }

    /** The first part of callAppenders: the category's own appenders. */
    method Dispatch(event: string, heap: Appenders)
      modifies heap`received
      ensures heap.received == old(heap.received) + multiset(Each(attached, event))
    {
      var todo := attached;
      while todo != {}
        invariant todo <= attached
        invariant heap.received == old(heap.received) + multiset(Each(attached - todo, event))
        decreases |todo|
      {
        var a :| a in todo;
        ghost var done := attached - todo;
        todo := todo - {a};
        assert Each(attached - todo, event) == Each(done, event) + {(a, event)};
        heap.DoAppend(a, event);
      }
      assert attached - todo == attached;
    }

    /** A category without a priority has the one of its nearest ancestor that has one. */
    method GetChainedPriority(ghost h: HierarchyMaintainer) returns (r: int)
      requires h.Valid() && h.Has(this)
      ensures Inherits(h.Tree(), name, r)
    {
      hide HierarchyMaintainer.Valid, Inherits;
      var c: Category := this;
      while c.priority >= NOTSET
        invariant h.Valid() && h.Has(c)
        invariant forall r :: Inherits(h.Tree(), c.name, r) ==> Inherits(h.Tree(), name, r)
        decreases |c.name|
      {
        h.Above(c);
        forall r | Inherits(h.Tree(), ParentName(c.name), r) ensures Inherits(h.Tree(), c.name, r) {
          InheritsUp(h.Tree(), c.name, r);
        }
        c := c.parent;
      }
      InheritsOwn(h.Tree(), c.name);
      return c.priority;
    }

    /** An event of a priority that is enabled goes to everyone reached, any other to nobody. */
    method Log(priority: int, event: string, heap: Appenders, ghost h: HierarchyMaintainer)
      requires h.Valid() && h.Has(this)
      modifies heap`received
      ensures exists r | Inherits(old(h.Tree()), name, r) ::
        heap.received == old(heap.received) + if r >= priority then old(h.Audience(name, event)) else multiset{}
    {
      hide Inherits, Rooted, Reached;
      var chained := GetChainedPriority(h);
      if chained >= priority {
        CallAppenders(event, heap, h);
      }
    }

    method CallAppenders(event: string, heap: Appenders, ghost h: HierarchyMaintainer)
      requires h.Valid() && h.Has(this)
      modifies heap`received
      ensures heap.received == old(heap.received) + old(h.Audience(name, event))
      decreases |name|
    {
      hide HierarchyMaintainer.Placed, Rooted, Each;
      h.Above(this);
      assert forall c: object | c in h.Categories() :: c != heap;
      Dispatch(event, heap);
      if isAdditive && parent != null {
        parent.CallAppenders(event, heap, h);
      }
    }
  }

  /** A category just made behaves like its parent. */
  lemma NewcomerIsLikeItsParent(tree: Tree, name: string, event: string)
    requires Rooted(tree) && name in tree && name != "" && tree[name] == Node(NOTSET, true, {})
    ensures Reached(tree, name, event) == Reached(tree, ParentName(name), event)
    ensures forall r :: Inherits(tree, name, r) <==> Inherits(tree, ParentName(name), r)
  {
    hide Inherits;
    assert Each({}, event) == {};
    OneIsInherited(tree, name);
    OneIsInherited(tree, ParentName(name));
    var r :| Inherits(tree, ParentName(name), r);
    InheritsUp(tree, name, r);
  }

  class HierarchyMaintainer {
    var categoryMap: map<string, Category>

    constructor ()
      ensures Valid() && categoryMap == map[]
    {
      categoryMap := map[];
    }

    ghost function Categories(): set<Category>
      reads this
    {
      set n | n in categoryMap :: categoryMap[n]
    }

    ghost predicate Has(c: Category)
      reads this
    {
      c.name in categoryMap && categoryMap[c.name] == c
    }

    /** What is at a name: its own category, below the one at the parent's name. */
    ghost predicate Placed(n: string)
      requires n in categoryMap
      reads this, Categories()
    {
      var c := categoryMap[n];
      && c in Categories() && c.name == n && c.Contents().Ok()
      && if n == "" then c.parent == null && c.priority < NOTSET
         else ParentName(n) in categoryMap && c.parent == categoryMap[ParentName(n)]
    }

    ghost predicate Valid()
      reads this, Categories()
    {
      forall n | n in categoryMap :: Placed(n)
    }

    ghost function Tree(): (tree: Tree)
      reads this, Categories()
      ensures tree.Keys == categoryMap.Keys
    {
      map n | n in categoryMap :: Node(categoryMap[n].priority, categoryMap[n].isAdditive, categoryMap[n].attached)
    }

    lemma RootedTree()
      requires Valid()
      ensures Rooted(Tree())
    {
      forall n | n in categoryMap ensures (n != "" ==> ParentName(n) in categoryMap) && (n == "" ==> categoryMap[n].priority < NOTSET) {
        assert Placed(n);
      }
    }

    /** Who gets an event of the category at that name. */
    ghost function Audience(name: string, event: string): multiset<(Pointer, string)>
      requires Valid() && name in categoryMap
      reads this, Categories()
    {
      assert Placed(name);
      Above(categoryMap[name]);
      Reached(Tree(), name, event)
    }

    lemma Above(c: Category)
      requires Valid() && Has(c)
      ensures Rooted(Tree())
      ensures if c.name == "" then c.parent == null && c.priority < NOTSET
        else c.parent != null && Has(c.parent) && c.parent.name == ParentName(c.name)
      ensures Tree()[c.name] == Node(c.priority, c.isAdditive, c.attached)
    {
      forall n | n in categoryMap ensures n != "" ==> ParentName(n) in categoryMap { assert Placed(n); }
      assert Placed(c.name);
      if "" in categoryMap { assert Placed(""); }
      if c.name != "" { assert Placed(ParentName(c.name)); }
    }

    method GetExistingInstance(name: string) returns (result: Category?)
      ensures if name in categoryMap then result == categoryMap[name] else result == null
    {
      result := null;
      if name in categoryMap {
        result := categoryMap[name];
      }
    }

    /** _categoryMap[name] = result */
    method Enter(c: Category)
      requires Valid() && c.name !in categoryMap && c.Contents().Ok()
      requires if c.name == "" then c.parent == null && c.priority < NOTSET
        else ParentName(c.name) in categoryMap && c.parent == categoryMap[ParentName(c.name)]
      modifies this
      ensures Valid() && categoryMap == old(categoryMap)[c.name := c]
    {
      ghost var was := categoryMap;
      assert forall n | n in was :: Placed(n);
      categoryMap := categoryMap[c.name := c];
      forall n | n in categoryMap ensures Placed(n) {
        assert categoryMap[n] in Categories();
      }
    }

    /** The category of that name, the same every time; what is missing on the path
        to the root is made, and no category that exists is touched. */
    method GetInstance(name: string) returns (result: Category?)
      requires Valid()
      modifies this
      ensures Valid() && result != null && Has(result) && result.name == name
      ensures Extends(old(categoryMap), categoryMap, Path(name))
      ensures forall n | n in categoryMap && n !in old(categoryMap) :: fresh(categoryMap[n]) && categoryMap[n].IsNew()
      decreases |name|, 1
    {
      hide Path, Extends;
      result := GetExistingInstance(name);
      if result == null {
        result := MakeInstance(name);
      } else {
        Existing(name);
      }
    }

    /** The part of _getInstance for a name that is not there. */
    method MakeInstance(name: string) returns (result: Category)
      requires Valid() && name !in categoryMap
      modifies this
      ensures Valid() && Has(result) && result.name == name
      ensures Extends(old(categoryMap), categoryMap, Path(name))
      ensures forall n | n in categoryMap && n !in old(categoryMap) :: fresh(categoryMap[n]) && categoryMap[n].IsNew()
      decreases |name|, 0
    {
      hide Path, Extends;
      ghost var was := categoryMap;
      NothingIsOk();
      if name == "" {
        result := new Category(name, null, INFO);
      } else {
        var dotIndex := FindLast(name, '.');
        var parentName;
        if dotIndex == -1 {
          parentName := "";
        } else {
          parentName := name[..dotIndex];
        }
        var parent := GetInstance(parentName);
        NotThereYet(was, categoryMap, name);
        result := new Category(name, parent, NOTSET);
      }
      ExtendsByOne(was, categoryMap, name, result);
      Enter(result);
    }

    /** The appenders of all categories. */
    ghost function All(): map<string, Slots>
      reads this, Categories()
    {
      map n | n in categoryMap :: categoryMap[n].Contents()
    }

    ghost function Named(n: string): Category
      requires n in categoryMap
      reads this
    {
      categoryMap[n]
    }

    /** One turn of shutdown. */
    method ShutdownOne(n: string, heap: Appenders)
      requires Valid() && n in categoryMap
      modifies Named(n)`attached, Named(n)`ownsAppender, heap`deleted
      ensures Valid() && All() == old(All())[n := Slots({}, map[])]
      ensures heap.deleted == old(heap.deleted) + multiset(old(All())[n].Owned())
    {
      var c := categoryMap[n];
      Different(c);
      c.RemoveAllAppenders(heap);
      RemoveAllIs(old(c.Contents()));
      NothingIsOk();
      StaysValid(c);
      EmptiedOne(c);
    }

    twostate lemma EmptiedOne(c: Category)
      requires old(Valid()) && old(Has(c)) && unchanged(this)
      requires forall d | d in Categories() && d != c :: unchanged(d)
      requires c.Contents() == Slots({}, map[])
      ensures All() == old(All())[c.name := Slots({}, map[])]
    {
      hide Valid, Placed, Slots.Ok;
      OthersStay(c);
      AllIs(old(All())[c.name := Slots({}, map[])]);
    }

    twostate lemma OthersStay(c: Category)
      requires old(Valid()) && old(Has(c)) && unchanged(this)
      requires forall d | d in Categories() && d != c :: unchanged(d)
      ensures forall m | m in categoryMap && m != c.name :: categoryMap[m].Contents() == old(categoryMap[m].Contents())
    {
      forall m | m in categoryMap && m != c.name ensures categoryMap[m].Contents() == old(categoryMap[m].Contents()) {
        assert old(Placed(m)) && categoryMap[m] in Categories() && categoryMap[m] != c;
      }
    }

    /** A change of one category, within its rules, keeps the hierarchy valid. */
    twostate lemma StaysValid(c: Category)
      requires old(Valid()) && old(Has(c)) && unchanged(this)
      requires forall d | d in Categories() && d != c :: unchanged(d)
      requires c.Contents().Ok() && (c.parent == null ==> c.priority < NOTSET)
      ensures Valid()
    {
      forall m | m in categoryMap ensures Placed(m) { assert old(Placed(m)); }
    }

    lemma AllIs(all: map<string, Slots>)
      requires all.Keys == categoryMap.Keys && forall m | m in categoryMap :: all[m] == categoryMap[m].Contents()
      ensures All() == all
    {
    }

    ghost function Members(): (cats: Members)
      reads this, Categories()
      ensures cats.Keys == categoryMap.Keys
    {
      map n | n in categoryMap :: categoryMap[n].Value()
    }

    lemma MembersIs(cats: Members)
      requires cats.Keys == categoryMap.Keys && forall n | n in categoryMap :: cats[n] == categoryMap[n].Value()
      ensures Members() == cats
    {
    }

    twostate lemma OthersSame(c: Category)
      requires old(Valid()) && old(Has(c)) && unchanged(this)
      requires forall d | d in Categories() && d != c :: unchanged(d)
      ensures forall m | m in categoryMap && m != c.name :: categoryMap[m].Value() == old(categoryMap[m].Value())
    {
      forall m | m in categoryMap && m != c.name ensures categoryMap[m].Value() == old(categoryMap[m].Value()) {
        assert old(Placed(m)) && categoryMap[m] in Categories() && categoryMap[m] != c;
      }
    }

    /** One category changed, and no other. */
    twostate lemma OneChanged(c: Category)
      requires old(Valid()) && old(Has(c)) && unchanged(this)
      requires forall d | d in Categories() && d != c :: unchanged(d)
      ensures Members() == old(Members())[c.name := c.Value()]
    {
      hide Valid, Placed, Slots.Ok;
      OthersSame(c);
      MembersIs(old(Members())[c.name := c.Value()]);
    }

    lemma Rules(c: Category)
      requires Valid() && Has(c)
      ensures c.Contents().Ok() && (c.parent == null ==> c.priority < NOTSET)
    {
      assert Placed(c.name);
    }

    lemma Different(c: Category)
      requires Valid() && Has(c)
      ensures c.Contents().Ok()
      ensures forall m | m in categoryMap && m != c.name :: categoryMap[m] != c
    {
      assert Placed(c.name);
      forall m | m in categoryMap && m != c.name ensures categoryMap[m] != c { assert Placed(m); }
    }

    /** Every appender is deleted once for each category that owned it. */
    method Shutdown(heap: Appenders)
      requires Valid()
      modifies Categories()`attached, Categories()`ownsAppender, heap`deleted
      ensures Valid() && All() == Emptied(old(All()), {})
      ensures forall a :: heap.deleted[a] == old(heap.deleted)[a] + |Owners(old(All()), categoryMap.Keys, a)|
    {
      hide Tally, Emptied, Slots.Owned;
      var todo := categoryMap.Keys;
      ghost var was := All();
      assert was.Keys == todo;
      StartOfShutdown(was, categoryMap.Keys - todo, heap.deleted);
      while todo != {}
        invariant todo <= categoryMap.Keys && Valid() && All() == Emptied(was, todo)
        invariant Tally(was, categoryMap.Keys - todo, old(heap.deleted), heap.deleted)
        decreases |todo|
      {
        var n :| n in todo;
        EmptiedMore(was, todo, n);
        TallyMore(was, categoryMap.Keys, todo, n, old(heap.deleted), heap.deleted);
        ShutdownOne(n, heap);
        todo := todo - {n};
      }
      assert categoryMap.Keys - todo == categoryMap.Keys;
      TallyIs(was, categoryMap.Keys, old(heap.deleted), heap.deleted);
    }

    lemma Existing(n: string)
      requires Valid() && n in categoryMap
      ensures Has(categoryMap[n]) && categoryMap[n].name == n
      ensures Extends(categoryMap, categoryMap, Path(n))
    {
      PathIsThere(n);
      assert Placed(n);
    }

    lemma {:induction false} PathIsThere(n: string)
      requires Valid() && n in categoryMap
      ensures forall m | m in Path(n) :: m in categoryMap
      decreases |n|
    {
      assert Placed(n);
      if n != "" { PathIsThere(ParentName(n)); }
    }
  }

  lemma RemoveAllIs(s: Slots)
    requires s.Ok()
    ensures Deletes(s, RemoveAll) == multiset(s.Owned())
  {
    assert s.attached * s.Owned() == s.Owned();
  }

  /** What is left when only those in todo still have their appenders. */
  ghost function Emptied(all: map<string, Slots>, todo: set<string>): map<string, Slots> {
    map n | n in all :: if n in todo then all[n] else Slots({}, map[])
  }

  /** The names among those given under which a is owned. */
  ghost function Owners(all: map<string, Slots>, names: set<string>, a: Pointer): set<string> {
    set n | n in names && n in all && a in all[n].Owned()
  }

  /** From `before` on, each appender was deleted once for each of the names under which it is owned. */
  ghost predicate Tally(all: map<string, Slots>, names: set<string>, before: multiset<Pointer>, now: multiset<Pointer>) {
    forall a :: now[a] == before[a] + |Owners(all, names, a)|
  }

  lemma TallyIs(all: map<string, Slots>, names: set<string>, before: multiset<Pointer>, now: multiset<Pointer>)
    requires Tally(all, names, before, now)
    ensures forall a :: now[a] == before[a] + |Owners(all, names, a)|
  {
  }

  lemma StartOfShutdown(all: map<string, Slots>, names: set<string>, before: multiset<Pointer>)
    requires names == {}
    ensures Emptied(all, all.Keys) == all && Tally(all, names, before, before)
  {
    forall a ensures |Owners(all, names, a)| == 0 { assert Owners(all, names, a) == {}; }
  }

  lemma EmptiedMore(all: map<string, Slots>, todo: set<string>, n: string)
    requires n in todo && n in all
    ensures Emptied(all, todo - {n}) == Emptied(all, todo)[n := Slots({}, map[])] && Emptied(all, todo)[n] == all[n]
  {
  }

  lemma TallyMore(all: map<string, Slots>, names: set<string>, todo: set<string>, n: string,
                  before: multiset<Pointer>, now: multiset<Pointer>)
    requires n in todo && todo <= names && n in all && Tally(all, names - todo, before, now)
    ensures Tally(all, names - (todo - {n}), before, now + multiset(all[n].Owned()))
  {
    hide Slots.Owned;
    forall a ensures |Owners(all, names - (todo - {n}), a)| == |Owners(all, names - todo, a)| + multiset(all[n].Owned())[a] {
      assert Owners(all, names - (todo - {n}), a) == Owners(all, names - todo, a) + if a in all[n].Owned() then {n} else {};
    }
  }

  /** The same map, with categories at those of the names where there were none. */
  ghost predicate Extends(m0: map<string, Category>, m1: map<string, Category>, names: seq<string>) {
    && (forall n :: n in m1 <==> n in m0 || n in names)
    && forall n | n in m0 :: n in m1 && m1[n] == m0[n]
  }

  lemma NotThereYet(m0: map<string, Category>, m1: map<string, Category>, name: string)
    requires name != "" && name !in m0 && Extends(m0, m1, Path(ParentName(name)))
    ensures name !in m1 && ParentName(name) in m1
  {
    NotOnPath(name);
  }

  lemma ExtendsByOne(m0: map<string, Category>, m1: map<string, Category>, name: string, c: Category)
    requires name !in m0 && (if name == "" then m1 == m0 else Extends(m0, m1, Path(ParentName(name))))
    ensures Extends(m0, m1[name := c], Path(name))
    ensures forall n | n in m1[name := c] && n !in m0 :: n == name || n in m1
  {
    assert name != "" ==> Path(name) == [name] + Path(ParentName(name));
  }

  lemma NothingIsOk()
    ensures Slots({}, map[]).Ok()
  {
  }

  lemma {:induction false} Shorter(name: string)
    ensures forall m | m in Path(name) :: |m| <= |name|
    decreases |name|
  {
    if name != "" { Shorter(ParentName(name)); }
  }

  lemma NotOnPath(name: string)
    requires name != ""
    ensures name !in Path(ParentName(name))
  {
    Shorter(ParentName(name));
  }
}
