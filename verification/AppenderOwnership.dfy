/** The appenders attached to one category: which of them it owns, and which it
    deletes, over whole runs of adding and removing. */
module AppenderOwnership {

  /** An Appender*; 0 is NULL. */
  type Pointer = nat

  /** The fields _appender and _ownsAppender. */
  datatype Slots = Slots(attached: set<Pointer>, owns: map<Pointer, bool>) {

    function Owned(): set<Pointer> {
      set a | a in owns && owns[a]
    }

    /** What is owned is attached, and what is attached has an entry. */
    predicate Ok() {
      Owned() <= attached && attached <= owns.Keys && 0 !in attached
    }
  }

  datatype Operation = AddOwned(a: Pointer) | AddBorrowed(a: Pointer) | RemoveOne(a: Pointer) | RemoveAll

  /** addAppender: an appender that is attached already stays as it was. */
  function Attach(s: Slots, a: Pointer, owned: bool): Slots {
    if a == 0 || a in s.attached then s else Slots(s.attached + {a}, s.owns[a := owned])
  }

  /** removeAppender: the entry of a borrowed appender is left in the map. */
  function Detach(s: Slots, a: Pointer): Slots {
    if a !in s.attached then s
    else Slots(s.attached - {a}, if a in s.Owned() then s.owns - {a} else s.owns)
  }

  function Apply(s: Slots, op: Operation): Slots {
    match op
    case AddOwned(a) => Attach(s, a, true)
    case AddBorrowed(a) => Attach(s, a, false)
    case RemoveOne(a) => Detach(s, a)
    case RemoveAll => Slots({}, map[])
  }

  /** What the operation deletes. */
  function Deletes(s: Slots, op: Operation): multiset<Pointer> {
    match op
    case RemoveOne(a) => if a in s.attached && a in s.Owned() then multiset{a} else multiset{}
    case RemoveAll => multiset(s.attached * s.Owned())
    case _ => multiset{}
  }

  /** What the operation hands over to the category. */
  function Grants(s: Slots, op: Operation): multiset<Pointer> {
    if op.AddOwned? && op.a != 0 && op.a !in s.attached then multiset{op.a} else multiset{}
  }

  datatype Ledger = Ledger(slots: Slots, granted: multiset<Pointer>, deleted: multiset<Pointer>)

  function Run(ops: seq<Operation>): Ledger {
    if ops == [] then Ledger(Slots({}, map[]), multiset{}, multiset{})
    else
      var r, op := Run(ops[..|ops| - 1]), ops[|ops| - 1];
      Ledger(Apply(r.slots, op), r.granted + Grants(r.slots, op), r.deleted + Deletes(r.slots, op))
  }

  lemma AttachOwned(s: Slots, a: Pointer, owned: bool)
    requires s.Ok()
    ensures Attach(s, a, owned).Ok()
    ensures Attach(s, a, owned).Owned() == if owned && a != 0 && a !in s.attached then s.Owned() + {a} else s.Owned()
  {
  }

  lemma DetachOwned(s: Slots, a: Pointer)
    requires s.Ok()
    ensures Detach(s, a).Ok() && Detach(s, a).Owned() == s.Owned() - {a}
  {
  }

  lemma ApplyConserves(s: Slots, op: Operation)
    requires s.Ok()
    ensures Apply(s, op).Ok()
    ensures Deletes(s, op) + multiset(Apply(s, op).Owned()) == multiset(s.Owned()) + Grants(s, op)
  {
    OwnedAttached(s);
    hide Attach, Detach, Slots.Owned, Slots.Ok;
    var owned := s.Owned();
    match op
    case AddOwned(a) =>
      AttachOwned(s, a, true);
      if a != 0 && a !in s.attached { assert multiset(owned + {a}) == multiset(owned) + multiset{a}; }
    case AddBorrowed(a) =>
      AttachOwned(s, a, false);
    case RemoveOne(a) =>
      DetachOwned(s, a);
      if a in owned { assert multiset{a} + multiset(owned - {a}) == multiset(owned); } else { assert owned - {a} == owned; }
    case RemoveAll =>
      NothingAttached();
      assert s.attached * owned == owned;
  }

  lemma OwnedAttached(s: Slots)
    requires s.Ok()
    ensures s.Owned() <= s.attached
  {
  }

  lemma NothingAttached()
    ensures Slots({}, map[]).Ok() && Slots({}, map[]).Owned() == {}
  {
  }

  lemma RunStep(ops: seq<Operation>, op: Operation)
    ensures Run(ops + [op]) ==
      Ledger(Apply(Run(ops).slots, op), Run(ops).granted + Grants(Run(ops).slots, op), Run(ops).deleted + Deletes(Run(ops).slots, op))
  {
    hide Apply, Deletes, Grants;
    assert (ops + [op])[..|ops|] == ops;
  }

  lemma RunEmpty()
    ensures Run([]) == Ledger(Slots({}, map[]), multiset{}, multiset{}) && Run([]).slots.Owned() == {} && Run([]).slots.Ok()
  {
  }

  lemma Balance(granted: multiset<Pointer>, deleted: multiset<Pointer>, owned: multiset<Pointer>,
                grants: multiset<Pointer>, deletes: multiset<Pointer>, owned2: multiset<Pointer>)
    requires deleted + owned == granted && deletes + owned2 == owned + grants
    ensures (deleted + deletes) + owned2 == granted + grants
  {
    forall a ensures ((deleted + deletes) + owned2)[a] == (granted + grants)[a] {
      assert (deleted + owned)[a] == granted[a] && (deletes + owned2)[a] == (owned + grants)[a];
    }
  }

  /** Over every run, what was handed over is what is still owned and what was deleted. */
  lemma {:induction false} RunConserves(ops: seq<Operation>)
    ensures Run(ops).slots.Ok() && Run(ops).deleted + multiset(Run(ops).slots.Owned()) == Run(ops).granted
    decreases |ops|
  {
    hide Run, Apply, Deletes, Grants, Slots.Owned, Slots.Ok;
    if ops == [] {
      RunEmpty();
    } else {
      var before, op := ops[..|ops| - 1], ops[|ops| - 1];
      assert ops == before + [op];
      RunConserves(before);
      var r := Run(before);
      ApplyConserves(r.slots, op);
      RunStep(before, op);
      Balance(r.granted, r.deleted, multiset(r.slots.Owned()), Grants(r.slots, op), Deletes(r.slots, op),
              multiset(Apply(r.slots, op).Owned()));
    }
  }

  /** An appender handed over once is deleted once, when it is owned no more; one
      that was never handed over is never deleted. */
  lemma DeletedOnce(ops: seq<Operation>, a: Pointer)
    ensures var r := Run(ops);
      && (r.granted[a] == 0 ==> r.deleted[a] == 0)
      && (r.granted[a] == 1 ==> r.deleted[a] == if a in r.slots.Owned() then 0 else 1)
      && r.deleted[a] <= r.granted[a] <= r.deleted[a] + 1
  {
    hide Run, Slots.Owned, Slots.Ok;
    RunConserves(ops);
    var r := Run(ops);
    assert r.granted[a] == r.deleted[a] + multiset(r.slots.Owned())[a];
  }

  /** After removeAllAppenders, as the destructor calls it, all of it is deleted. */
  lemma DestructorDeletesTheRest(ops: seq<Operation>)
    ensures Run(ops + [RemoveAll]).deleted == Run(ops).granted
  {
    hide Run, Slots.Ok;
    RunConserves(ops + [RemoveAll]);
    RunStep(ops, RemoveAll);
    NothingAttached();
    var r := Run(ops + [RemoveAll]);
    assert r.granted == Run(ops).granted + multiset{} == Run(ops).granted;
    assert r.deleted == r.deleted + multiset({}) == r.granted;
  }

  /** addAppender(a) is called with a pointer to hand over. */
  predicate Offers(op: Operation, a: Pointer) {
    op == AddOwned(a)
  }

  /** How often a is handed over, whether the category takes it or not. */
  function Offered(ops: seq<Operation>, a: Pointer): nat {
    if ops == [] then 0 else Offered(ops[..|ops| - 1], a) + if Offers(ops[|ops| - 1], a) then 1 else 0
  }

  /** The i-th operation hands a over, and a is not attached at that time. */
  predicate TakenAt(ops: seq<Operation>, a: Pointer, i: nat)
    requires i < |ops|
  {
    Offers(ops[i], a) && a !in Run(ops[..i]).slots.attached
  }

  lemma {:induction false} GrantedExactly(ops: seq<Operation>, a: Pointer)
    requires a != 0
    ensures Run(ops).granted[a] > 0 <==> exists i | 0 <= i < |ops| :: TakenAt(ops, a, i)
    ensures Run(ops).granted[a] <= Offered(ops, a)
    ensures Run(ops).granted[a] == Offered(ops, a) <==> forall i | 0 <= i < |ops| && Offers(ops[i], a) :: TakenAt(ops, a, i)
    decreases |ops|
  {
    hide Apply, Deletes, Run;
    if ops == [] {
      RunEmpty();
    } else {
      var n := |ops| - 1;
      var before := ops[..n];
      GrantedExactly(before, a);
      assert ops == before + [ops[n]];
      RunStep(before, ops[n]);
      forall i | 0 <= i < n ensures TakenAt(ops, a, i) <==> TakenAt(before, a, i) {
        assert before[..i] == ops[..i] && before[i] == ops[i];
      }
      assert Run(ops).granted[a] == Run(before).granted[a] + if TakenAt(ops, a, n) then 1 else 0;
    }
  }

  /** An appender is deleted, at the latest with its category, if and only if it
      was handed over at a time when it was not attached; and as often as it was
      handed over if and only if that was so every time. */
  lemma HandedOverIsDeleted(ops: seq<Operation>, a: Pointer)
    requires a != 0
    ensures Run(ops + [RemoveAll]).deleted[a] > 0 <==> exists i | 0 <= i < |ops| :: TakenAt(ops, a, i)
    ensures Run(ops + [RemoveAll]).deleted[a] == Offered(ops, a)
      <==> forall i | 0 <= i < |ops| && Offers(ops[i], a) :: TakenAt(ops, a, i)
  {
    hide Run, TakenAt, Offered;
    GrantedExactly(ops, a);
    DestructorDeletesTheRest(ops);
  }

  // ----- what is attached, and what is owned -----

  /** What an operation makes of one appender, whether owned or borrowed. */
  lemma ApplyAttached(s: Slots, op: Operation, a: Pointer)
    ensures a in Apply(s, op).attached <==>
      match op
      case AddOwned(b) => a in s.attached || (a == b && a != 0)
      case AddBorrowed(b) => a in s.attached || (a == b && a != 0)
      case RemoveOne(b) => a in s.attached && a != b
      case RemoveAll => false
  {
  }

  predicate Adds(op: Operation, a: Pointer) {
    op == AddOwned(a) || op == AddBorrowed(a)
  }

  predicate Removes(op: Operation, a: Pointer) {
    op == RemoveOne(a) || op == RemoveAll
  }

  /** Behind the i-th operation, a is not removed. */
  predicate KeptAfter(ops: seq<Operation>, a: Pointer, i: nat) {
    forall j | i < j < |ops| :: !Removes(ops[j], a)
  }

  lemma LastOperation(ops: seq<Operation>)
    requires ops != []
    ensures var n := |ops| - 1; Run(ops).slots == Apply(Run(ops[..n]).slots, ops[n])
  {
    hide Apply;
  }

  /** Over every run, an appender is attached if and only if some operation added it and
      none has removed it since. */
  lemma {:induction false} AttachedExactly(ops: seq<Operation>, a: Pointer)
    requires a != 0
    ensures a in Run(ops).slots.attached <==> exists i | 0 <= i < |ops| :: Adds(ops[i], a) && KeptAfter(ops, a, i)
    decreases |ops|
  {
    hide Run, Apply;
    if ops == [] {
      RunEmpty();
      NothingRun();
    } else {
      var n := |ops| - 1;
      var before := ops[..n];
      AttachedExactly(before, a);
      LastOperation(ops);
      ApplyAttached(Run(before).slots, ops[n], a);
      forall i | 0 <= i < n ensures KeptAfter(ops, a, i) <==> KeptAfter(before, a, i) && !Removes(ops[n], a) {
        assert forall j | i < j < n :: before[j] == ops[j];
      }
      if i :| 0 <= i < n && Adds(before[i], a) && KeptAfter(before, a, i) {
        assert ops[i] == before[i];
      }
      assert KeptAfter(ops, a, n);
    }
  }

  lemma NothingRun()
    ensures Run([]).slots.attached == {}
  {
  }

  /** It is owned if and only if the hand-over was taken, and it was not removed since. */
  lemma {:induction false} OwnedExactly(ops: seq<Operation>, a: Pointer)
    requires a != 0
    ensures a in Run(ops).slots.Owned() <==> exists i | 0 <= i < |ops| :: TakenAt(ops, a, i) && KeptAfter(ops, a, i)
    decreases |ops|
  {
    hide Run, Apply, Slots.Owned, Slots.Ok;
    if ops == [] {
      RunEmpty();
    } else {
      var n := |ops| - 1;
      var before := ops[..n];
      OwnedExactly(before, a);
      RunConserves(before);
      LastOperation(ops);
      ApplyOwned(Run(before).slots, ops[n], a);
      forall i | 0 <= i < n ensures TakenAt(ops, a, i) <==> TakenAt(before, a, i) {
        assert before[..i] == ops[..i] && before[i] == ops[i];
      }
      forall i | 0 <= i < n ensures KeptAfter(ops, a, i) <==> KeptAfter(before, a, i) && !Removes(ops[n], a) {
        assert forall j | i < j < n :: before[j] == ops[j];
      }
      assert KeptAfter(ops, a, n) && (TakenAt(ops, a, n) <==> ops[n] == AddOwned(a) && a !in Run(before).slots.attached);
      if i :| 0 <= i < n && TakenAt(before, a, i) && KeptAfter(before, a, i) {
        assert TakenAt(ops, a, i);
      }
      if i :| 0 <= i < n && TakenAt(ops, a, i) && KeptAfter(ops, a, i) {
        assert TakenAt(before, a, i);
      }
    }
  }

  lemma ApplyOwned(s: Slots, op: Operation, a: Pointer)
    requires s.Ok() && a != 0
    ensures a in Apply(s, op).Owned() <==> (a in s.Owned() && !Removes(op, a)) || (op == AddOwned(a) && a !in s.attached)
  {
    match op
    case AddOwned(b) => AttachOwned(s, b, true);
    case AddBorrowed(b) => AttachOwned(s, b, false);
    case RemoveOne(b) => DetachOwned(s, b);
    case RemoveAll =>
  }

  /** Handing over an appender that was lent before is ignored: it is never deleted. */
  lemma LentStaysLent(a: Pointer)
    requires a != 0
    ensures Run([AddBorrowed(a), AddOwned(a), RemoveAll]).deleted == multiset{}
  {
    var ops := [AddBorrowed(a), AddOwned(a), RemoveAll];
    assert ops[..2] == [AddBorrowed(a), AddOwned(a)] && ops[..2][..1] == [AddBorrowed(a)] && ops[..2][..1][..0] == [];
    assert Run(ops[..2][..1]).slots.Owned() == {};
  }
}
