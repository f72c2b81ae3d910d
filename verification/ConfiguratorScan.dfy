/** PropertyConfiguratorImpl: the scans over the sorted keys of the properties
    that find the appenders and the categories. */
module ConfiguratorScan {
  import opened InputStream
  import opened Strings

  // ----- the order of std::map<std::string, ...> -----

  ghost predicate Sorted(keys: seq<string>) {
    forall i, j | 0 <= i < j < |keys| :: Less(keys[i], keys[j])
  }

  lemma InOrder(keys: seq<string>, i: nat, j: nat)
    requires Sorted(keys) && i < |keys| && j < |keys| && Less(keys[i], keys[j])
    ensures i < j
  {
    LessOneWay(keys[i], keys[j]);
    NotBoth(keys[i], keys[j]);
  }

  /** map::lower_bound, as an index. */
  function LowerBound(keys: seq<string>, k: string): (i: nat)
    ensures i <= |keys| && (i < |keys| ==> !Less(keys[i], k)) && forall j | 0 <= j < i :: Less(keys[j], k)
  {
    if keys == [] || !Less(keys[0], k) then 0
    else
      var i := LowerBound(keys[1..], k);
      assert forall j | 1 <= j < i + 1 :: keys[j] == keys[1..][j - 1];
      i + 1
  }

  lemma LowerBoundSplits(keys: seq<string>, k: string, j: nat)
    requires Sorted(keys) && j < |keys|
    ensures Less(keys[j], k) <==> j < LowerBound(keys, k)
  {
    var i := LowerBound(keys, k);
    if i < j && Less(keys[j], k) { LessTransitive(keys[i], keys[j], k); }
  }

  /** Between p + "." and p + "/" there is what starts with p + ".", and nothing else. */
  lemma {:induction false} PrefixRange(k: string, p: string)
    ensures !Less(k, p + ".") && Less(k, p + "/") <==> p + "." <= k
  {
    if p == "" {
      assert p + "." == "." && p + "/" == "/";
      if k != "" && k[0] == '.' { assert !Less(k[1..], ""); }
    } else {
      var q := p[1..];
      assert (p + ".")[1..] == q + "." && (p + "/")[1..] == q + "/";
      if k != "" {
        PrefixRange(k[1..], q);
        assert k == [k[0]] + k[1..] && p + "." == [p[0]] + (q + ".");
        assert p + "." <= k <==> p[0] == k[0] && q + "." <= k[1..];
      }
    }
  }

  /** The range both scans go over. */
  lemma RangeIsPrefix(keys: seq<string>, p: string, j: nat)
    requires Sorted(keys) && j < |keys|
    ensures LowerBound(keys, p + ".") <= j < LowerBound(keys, p + "/") <==> p + "." <= keys[j]
  {
    LowerBoundSplits(keys, p + ".", j);
    LowerBoundSplits(keys, p + "/", j);
    PrefixRange(keys[j], p);
  }

  // ----- the keys of appenders -----

  const APPENDER: string := "appender."

  /** The second part of a key. */
  function NameOf(key: string): string
    requires APPENDER <= key
  {
    key[9..Find(key, '.', 9)]
  }

  /** "appender.name", with nothing behind the name. */
  predicate Defines(key: string)
    requires APPENDER <= key
  {
    Find(key, '.', 9) == |key|
  }

  lemma SplitKey(key: string)
    requires APPENDER <= key
    ensures var parts := SplitSpec(key, '.', INT_MAX);
      |parts| >= 2 && parts[1] == NameOf(key) && (|parts| == 2 <==> Defines(key))
  {
    hide Find, SplitSpec;
    assert forall i | 0 <= i < 8 :: key[i] == APPENDER[i];
    assert key[8] == APPENDER[8];
    FindIs(key, '.', 0, 8);
    SplitUnfold(key, '.', INT_MAX);
    var rest := key[9..];
    var e := Find(key, '.', 9);
    FindIs(rest, '.', 0, e - 9);
    SplitUnfold(rest, '.', INT_MAX - 1);
    assert rest[..e - 9] == key[9..e];
  }

  /** A key that defines is "appender." and its name. */
  lemma DefinitionIs(key: string)
    requires APPENDER <= key
    ensures '.' !in NameOf(key)
    ensures Defines(key) ==> key == APPENDER + NameOf(key)
    ensures !Defines(key) ==> exists rest :: key == APPENDER + (NameOf(key) + ("." + rest))
  {
    hide Find;
    var e := Find(key, '.', 9);
    assert key == APPENDER + key[9..];
    if e < |key| {
      assert key[9..] == key[9..e] + ("." + key[e + 1..]);
    }
  }

  lemma NameIs(n: string)
    requires '.' !in n
    ensures Defines(APPENDER + n) && NameOf(APPENDER + n) == n
  {
    FindIs(APPENDER + n, '.', 9, 9 + |n|);
  }

  // ----- the scan -----

  datatype Built<A> = Instance(value: A) | Rejected

  /** How the scan ends, and the names of the appenders made so far, in order. */
  datatype Scan =
    | Complete(made: seq<string>)
    | PartialDefinition(key: string, made: seq<string>)
    | NotBuilt(name: string, made: seq<string>)

  predicate AppenderKeys(keys: seq<string>, from: nat, to: nat) {
    from <= to <= |keys| && forall j | from <= j < to :: APPENDER <= keys[j]
  }

  function ScanFrom<A>(keys: seq<string>, i: nat, to: nat, current: string, made: seq<string>, make: string -> Built<A>): Scan
    requires i <= to && AppenderKeys(keys, i, to)
    decreases |keys| - i
  {
    if i == to then Complete(made)
    else
      var name := NameOf(keys[i]);
      if name == current then ScanFrom(keys, i + 1, to, current, made, make)
      else if !Defines(keys[i]) then PartialDefinition(keys[i], made)
      else if make(name).Rejected? then NotBuilt(name, made)
      else ScanFrom(keys, i + 1, to, name, made + [name], make)
  }

  function ScanAll<A>(keys: seq<string>, make: string -> Built<A>): Scan
    requires Sorted(keys)
  {
    var (from, to) := Range(keys, "appender");
    ScanFrom(keys, from, to, "", [], make)
  }

  function Range(keys: seq<string>, p: string): (r: (nat, nat))
    requires Sorted(keys)
    ensures r.0 <= r.1 <= |keys|
    ensures forall j | 0 <= j < |keys| :: r.0 <= j < r.1 <==> p + "." <= keys[j]
  {
    var from, to := LowerBound(keys, p + "."), LowerBound(keys, p + "/");
    RangeInOrder(keys, p);
    assert forall j | 0 <= j < |keys| :: from <= j < to <==> p + "." <= keys[j] by {
      forall j | 0 <= j < |keys| { RangeIsPrefix(keys, p, j); }
    }
    (from, to)
  }

  lemma RangeInOrder(keys: seq<string>, p: string)
    requires Sorted(keys)
    ensures LowerBound(keys, p + ".") <= LowerBound(keys, p + "/")
  {
    var from, to := LowerBound(keys, p + "."), LowerBound(keys, p + "/");
    if to < from {
      LessPrefix(p, ".", "/");
      LessTransitive(keys[to], p + ".", p + "/");
    }
  }

  class Configurator<A> {
    const keys: seq<string>
    var allAppenders: map<string, A>

    constructor (keys: seq<string>)
      ensures this.keys == keys && allAppenders == map[]
    {
      this.keys, allAppenders := keys, map[];
    }

    /** What make gives for each name. */
    ghost function Made(names: seq<string>, make: string -> Built<A>): map<string, A> {
      map n | n in names && make(n).Instance? :: make(n).value
    }

    method InstantiateAllAppenders(make: string -> Built<A>) returns (outcome: Scan)
      requires Sorted(keys) && allAppenders == map[]
      modifies this`allAppenders
      ensures outcome == ScanAll(keys, make)
      ensures allAppenders == Made(outcome.made, make)
    {
      hide Sorted, LowerBound, NameOf, Defines;
      var currentAppender, made := "", [];
      var (from, to) := Range(keys, "appender");
      var i := from;
      while i < to
        invariant from <= i <= to
        invariant ScanFrom(keys, i, to, currentAppender, made, make) == ScanAll(keys, make)
        invariant allAppenders == Made(made, make)
      {
        var key := keys[i];
        SplitKey(key);
        var propNameParts, _ := Split(key, '.', INT_MAX);
        var appenderName := propNameParts[1];
        if appenderName == currentAppender {
        } else if |propNameParts| == 2 {
          currentAppender := appenderName;
          var appender := make(currentAppender);
          match appender
          case Rejected => return NotBuilt(currentAppender, made);
          case Instance(value) => allAppenders := allAppenders[currentAppender := value];
          made := made + [currentAppender];
        } else {
          return PartialDefinition(key, made);
        }
        i := i + 1;
      }
      outcome := Complete(made);
    }

    method GetCategories() returns (categories: seq<string>)
      requires Sorted(keys)
      ensures categories == Categories(keys)
    {
      hide Sorted, LowerBound;
      categories := ["rootCategory"];
      var (from, to) := Range(keys, "category");
      var i := from;
      while i < to
        invariant from <= i <= to
        invariant categories == ["rootCategory"] + Stripped(keys[from..i])
      {
        assert keys[from..i + 1][..i - from] == keys[from..i];
        categories := categories + [keys[i][9..]];
        i := i + 1;
      }
    }
  }

  /** The keys without the "category." in front. */
  function Stripped(keys: seq<string>): (r: seq<string>)
    requires forall j | 0 <= j < |keys| :: "category." <= keys[j]
    ensures |r| == |keys| && forall j | 0 <= j < |keys| :: "category." + r[j] == keys[j]
  {
    if keys == [] then [] else Stripped(keys[..|keys| - 1]) + [keys[|keys| - 1][9..]]
  }

  function Categories(keys: seq<string>): seq<string>
    requires Sorted(keys)
  {
    var (from, to) := Range(keys, "category");
    ["rootCategory"] + Stripped(keys[from..to])
  }

  // ----- when the scan completes -----

  /** The name of the last definition before i; "" when there was none. */
  ghost function Current(keys: seq<string>, from: nat, i: nat): string
    requires from <= i && AppenderKeys(keys, from, i)
    decreases i
  {
    if i == from then "" else if Defines(keys[i - 1]) then NameOf(keys[i - 1]) else Current(keys, from, i - 1)
  }

  /** Every key behind a definition carries the name of the last one. */
  ghost predicate Followed(keys: seq<string>, from: nat, to: nat)
    requires AppenderKeys(keys, from, to)
  {
    forall i | from <= i < to :: Defines(keys[i]) || NameOf(keys[i]) == Current(keys, from, i)
  }

  /** An appender can be made for every name that is defined. */
  ghost predicate AllBuilt<A>(keys: seq<string>, from: nat, to: nat, make: string -> Built<A>)
    requires AppenderKeys(keys, from, to)
  {
    forall i | from <= i < to && Defines(keys[i]) && NameOf(keys[i]) != "" :: make(NameOf(keys[i])).Instance?
  }

  /** The last definition before i, or from - 1. */
  lemma LastDefinition(keys: seq<string>, from: nat, i: nat) returns (d: int)
    requires from <= i && AppenderKeys(keys, from, i)
    ensures from - 1 <= d < i && forall j | d < j < i :: !Defines(keys[j])
    ensures Current(keys, from, i) == if d < from then "" else NameOf(keys[d])
    ensures d >= from ==> Defines(keys[d]) && keys[d] == APPENDER + NameOf(keys[d])
    decreases i
  {
    if i == from {
      d := from - 1;
    } else if Defines(keys[i - 1]) {
      d := i - 1;
      DefinitionIs(keys[d]);
    } else {
      d := LastDefinition(keys, from, i - 1);
    }
  }

  /** A definition under a name that is not empty is the first key of that name. */
  lemma NotCurrentYet(keys: seq<string>, from: nat, i: nat)
    requires Sorted(keys) && from <= i < |keys| && AppenderKeys(keys, from, i + 1) && Defines(keys[i]) && NameOf(keys[i]) != ""
    ensures Current(keys, from, i) != NameOf(keys[i])
  {
    hide NameOf, Defines, Current;
    DefinitionIs(keys[i]);
    var d := LastDefinition(keys, from, i);
    if d >= from { LessOneWay(keys[d], keys[i]); }
  }

  lemma {:induction false} ScanFollows<A>(keys: seq<string>, from: nat, i: nat, to: nat, made: seq<string>, make: string -> Built<A>)
    requires Sorted(keys) && from <= i && AppenderKeys(keys, from, to) && i <= to
    ensures ScanFrom(keys, i, to, Current(keys, from, i), made, make).Complete? <==>
      forall j | i <= j < to ::
        if Defines(keys[j]) then NameOf(keys[j]) == "" || make(NameOf(keys[j])).Instance?
        else NameOf(keys[j]) == Current(keys, from, j)
    decreases |keys| - i
  {
    hide NameOf, Defines, Sorted;
    if i < to {
      var name := NameOf(keys[i]);
      if Defines(keys[i]) {
        if name != "" {
          NotCurrentYet(keys, from, i);
          ScanFollows(keys, from, i + 1, to, made + [name], make);
        } else {
          EmptyName(keys, from, i);
          ScanFollows(keys, from, i + 1, to, made, make);
        }
      } else {
        ScanFollows(keys, from, i + 1, to, made, make);
      }
    }
  }

  /** "appender." itself comes before all other keys of the range. */
  lemma EmptyName(keys: seq<string>, from: nat, i: nat)
    requires Sorted(keys) && from <= i < |keys| && AppenderKeys(keys, from, i + 1) && Defines(keys[i]) && NameOf(keys[i]) == ""
    ensures i == from && Current(keys, from, i) == ""
  {
    hide NameOf, Defines;
    DefinitionIs(keys[i]);
    assert APPENDER + "" == APPENDER;
    if from < i {
      assert keys[from] == APPENDER + keys[from][9..];
      LessPrefix(APPENDER, keys[from][9..], "");
    }
  }

  // ----- the order of names -----

  /** m continues n with a character below '.'. */
  predicate Cuts(m: string, n: string) {
    n < m && m[|n|] < '.'
  }

  /** Between a definition and the keys behind it there is exactly what cuts in. */
  lemma {:induction false} NameOrder(m: string, n: string, rest: string)
    requires '.' !in m
    ensures Less(n, m) && Less(m, n + ("." + rest)) <==> Cuts(m, n)
  {
    var k := n + ("." + rest);
    if n == "" {
      assert k == "." + rest;
    } else if m != "" && m[0] == n[0] {
      assert k[1..] == n[1..] + ("." + rest);
      NameOrder(m[1..], n[1..], rest);
      assert m == [m[0]] + m[1..] && n == [n[0]] + n[1..];
    }
  }

  lemma KeyOrder(m: string, k: string)
    requires '.' !in m && APPENDER <= k && !Defines(k)
    ensures Less(APPENDER + NameOf(k), APPENDER + m) && Less(APPENDER + m, k) <==> Cuts(m, NameOf(k))
    ensures Less(APPENDER + NameOf(k), k)
  {
    hide NameOf, Defines;
    DefinitionIs(k);
    var n := NameOf(k);
    var rest :| k == APPENDER + (n + ("." + rest));
    LessPrefix(APPENDER, n, m);
    LessPrefix(APPENDER, m, n + ("." + rest));
    NameOrder(m, n, rest);
    LessPrefix(APPENDER, n, n + ("." + rest));
    LessPrefix(n, "", "." + rest);
    assert n + "" == n;
  }

  /** A name that some key carries is defined. */
  ghost predicate EveryNameDefined(keys: seq<string>) {
    forall k | k in keys && APPENDER <= k && NameOf(k) != "" :: APPENDER + NameOf(k) in keys
  }

  /** The definition of m stands between those of a shorter name and its other keys. */
  ghost predicate CutsIn(keys: seq<string>, m: string, k: string) {
    && k in keys && APPENDER <= k && !Defines(k)
    && '.' !in m && APPENDER + m in keys && Cuts(m, NameOf(k))
  }

  ghost predicate Interrupted(keys: seq<string>) {
    exists m, k :: CutsIn(keys, m, k)
  }

  lemma CutInFails(keys: seq<string>, from: nat, to: nat, m: string, k: string)
    requires Sorted(keys) && AppenderKeys(keys, from, to) && (forall j | 0 <= j < |keys| :: from <= j < to <==> APPENDER <= keys[j])
    requires CutsIn(keys, m, k)
    ensures !Followed(keys, from, to)
  {
    hide NameOf, Defines, Cuts;
    var n := NameOf(k);
    KeyOrder(m, k);
    NameIs(m);
    var i :| 0 <= i < |keys| && keys[i] == k;
    var j :| 0 <= j < |keys| && keys[j] == APPENDER + m;
    InOrder(keys, j, i);
    var d := LastDefinition(keys, from, i);
    if Current(keys, from, i) == n {
      InOrder(keys, d, j);
    }
  }

  lemma UndefinedFails(keys: seq<string>, from: nat, to: nat, k: string)
    requires Sorted(keys) && AppenderKeys(keys, from, to) && (forall j | 0 <= j < |keys| :: from <= j < to <==> APPENDER <= keys[j])
    requires k in keys && APPENDER <= k && NameOf(k) != "" && APPENDER + NameOf(k) !in keys
    ensures !Followed(keys, from, to)
  {
    hide NameOf, Defines;
    DefinitionIs(k);
    var i :| 0 <= i < |keys| && keys[i] == k;
    var d := LastDefinition(keys, from, i);
  }

  lemma KeyFollows(keys: seq<string>, from: nat, to: nat, i: nat)
    requires Sorted(keys) && AppenderKeys(keys, from, to) && (forall j | 0 <= j < |keys| :: from <= j < to <==> APPENDER <= keys[j])
    requires from <= i < to && !Defines(keys[i]) && EveryNameDefined(keys)
    ensures NameOf(keys[i]) == Current(keys, from, i) || Interrupted(keys)
  {
    hide NameOf, Defines, Cuts;
    var k := keys[i];
    var n := NameOf(k);
    var d := LastDefinition(keys, from, i);
    DefinitionIs(k);
    if n != "" {
      assert APPENDER + n in keys;
      var j :| 0 <= j < |keys| && keys[j] == APPENDER + n;
      KeyOrder(n, k);
      NameIs(n);
      InOrder(keys, j, i);
      assert d >= j;
      var m := NameOf(keys[d]);
      if m != n {
        DefinitionIs(keys[d]);
        KeyOrder(m, k);
        assert CutsIn(keys, m, k);
      }
    } else if d >= from {
      var m := NameOf(keys[d]);
      if m != "" {
        DefinitionIs(keys[d]);
        KeyOrder(m, k);
        assert APPENDER + "" == APPENDER;
        LessPrefix(APPENDER, "", m);
        assert CutsIn(keys, m, k);
      }
    }
  }

  lemma FollowedExactly(keys: seq<string>, from: nat, to: nat)
    requires Sorted(keys) && AppenderKeys(keys, from, to) && (forall j | 0 <= j < |keys| :: from <= j < to <==> APPENDER <= keys[j])
    ensures Followed(keys, from, to) <==> EveryNameDefined(keys) && !Interrupted(keys)
  {
    hide NameOf, Defines, Current, Sorted, CutsIn;
    if EveryNameDefined(keys) {
      if Interrupted(keys) {
        var m, k :| CutsIn(keys, m, k);
        CutInFails(keys, from, to, m, k);
      } else {
        forall i | from <= i < to && !Defines(keys[i]) ensures NameOf(keys[i]) == Current(keys, from, i) {
          KeyFollows(keys, from, to, i);
        }
      }
    } else {
      var k :| k in keys && APPENDER <= k && NameOf(k) != "" && APPENDER + NameOf(k) !in keys;
      UndefinedFails(keys, from, to, k);
    }
  }

  /** The scan ends well exactly when every name is defined, no definition cuts in
      between the keys of another appender, and every appender can be made. */
  lemma ScanCompletesExactly<A>(keys: seq<string>, make: string -> Built<A>)
    requires Sorted(keys)
    ensures ScanAll(keys, make).Complete? <==>
      && EveryNameDefined(keys) && !Interrupted(keys)
      && forall k | k in keys && APPENDER <= k && Defines(k) && NameOf(k) != "" :: make(NameOf(k)).Instance?
  {
    hide NameOf, Defines, Current, Sorted, CutsIn, ScanFrom;
    var (from, to) := Range(keys, "appender");
    assert "appender" + "." == APPENDER;
    StartsEmpty(keys, from);
    ScanFollows(keys, from, from, to, [], make);
    FollowedExactly(keys, from, to);
    assert AllBuilt(keys, from, to, make) <==>
      forall k | k in keys && APPENDER <= k && Defines(k) && NameOf(k) != "" :: make(NameOf(k)).Instance?;
  }

  lemma StartsEmpty(keys: seq<string>, from: nat)
    requires from <= |keys|
    ensures Current(keys, from, from) == ""
  {
  }

  /** Names whose characters all sort behind '.' cannot be cut in on. */
  lemma PlainNamesAreNotInterrupted(keys: seq<string>)
    requires forall m, i | APPENDER + m in keys && 0 <= i < |m| :: m[i] >= '.'
    ensures !Interrupted(keys)
  {
  }

  lemma DashOrder()
    ensures Less("appender.A", "appender.A-B") && Less("appender.A-B", "appender.A.layout") && Less("appender.A", "appender.A.layout")
  {
    hide Less;
    var a := "appender.A";
    LessPrefix(a, "", "-B");
    LessPrefix(a, "", ".layout");
    LessPrefix(a, "-B", ".layout");
    assert a + "" == a && a + "-B" == "appender.A-B" && a + ".layout" == "appender.A.layout";
    DashLess();
  }

  lemma DashLess()
    ensures Less("", "-B") && Less("", ".layout") && Less("-B", ".layout")
  {
  }

  lemma DashSorted()
    ensures Sorted(["appender.A", "appender.A-B", "appender.A.layout"])
  {
    hide Less;
    DashOrder();
  }

  /** But '-' sorts before '.': here both appenders are defined, and the scan
      stops at a property of the first. */
  lemma DashCutsIn<A>(make: string -> Built<A>)
    ensures var keys := ["appender.A", "appender.A-B", "appender.A.layout"];
      Sorted(keys) && EveryNameDefined(keys) && !ScanAll(keys, make).Complete?
  {
    hide Sorted, ScanAll, NameOf, Defines, Less, Find;
    var keys := ["appender.A", "appender.A-B", "appender.A.layout"];
    DashSorted();
    assert APPENDER + "A" == keys[0] && APPENDER + "A-B" == keys[1];
    NameIs("A");
    NameIs("A-B");
    DashProperty();
    assert Cuts("A-B", "A");
    assert CutsIn(keys, "A-B", keys[2]);
    ScanCompletesExactly(keys, make);
  }

  lemma DashProperty()
    ensures APPENDER <= "appender.A.layout" && NameOf("appender.A.layout") == "A" && !Defines("appender.A.layout")
  {
    FindIs("appender.A.layout", '.', 9, 10);
  }

  // ----- each appender once -----

  /** The names defined before i, in order. */
  ghost function Definitions(keys: seq<string>, from: nat, i: nat): seq<string>
    requires from <= i && AppenderKeys(keys, from, i)
    decreases i
  {
    if i == from then []
    else Definitions(keys, from, i - 1) + if Defines(keys[i - 1]) && NameOf(keys[i - 1]) != "" then [NameOf(keys[i - 1])] else []
  }

  /** The scan makes the appenders defined before the key it stops at. */
  lemma {:induction false} ScanMakes<A>(keys: seq<string>, from: nat, i: nat, to: nat, make: string -> Built<A>) returns (stop: nat)
    requires Sorted(keys) && from <= i && AppenderKeys(keys, from, to) && i <= to
    ensures var r := ScanFrom(keys, i, to, Current(keys, from, i), Definitions(keys, from, i), make);
      && i <= stop <= to && r.made == Definitions(keys, from, stop)
      && match r
         case Complete(_) => stop == to
         case PartialDefinition(key, _) => stop < to && keys[stop] == key && !Defines(key)
         case NotBuilt(name, _) => stop < to && NameOf(keys[stop]) == name && make(name).Rejected?
    decreases |keys| - i
  {
    hide NameOf, Defines, Sorted;
    stop := i;
    if i < to {
      assert Definitions(keys, from, i) + [] == Definitions(keys, from, i);
      var name := NameOf(keys[i]);
      if Defines(keys[i]) {
        if name == "" { EmptyName(keys, from, i); } else { NotCurrentYet(keys, from, i); }
        if name == "" || make(name).Instance? { stop := ScanMakes(keys, from, i + 1, to, make); }
      } else if name == Current(keys, from, i) {
        stop := ScanMakes(keys, from, i + 1, to, make);
      }
    }
  }

  /** Each name that is defined, once. */
  lemma {:induction false} DefinitionsAreNames(keys: seq<string>, from: nat, i: nat)
    requires Sorted(keys) && from <= i && AppenderKeys(keys, from, i)
    ensures var names := Definitions(keys, from, i);
      && (forall n :: n in names <==> n != "" && '.' !in n && APPENDER + n in keys[from..i])
      && forall a, b | 0 <= a < b < |names| :: names[a] != names[b]
    decreases i
  {
    hide NameOf, Defines, Sorted;
    if from < i {
      var key := keys[i - 1];
      DefinitionsAreNames(keys, from, i - 1);
      OneName(key);
      assert keys[from..i] == keys[from..i - 1] + [key];
      KeyIsNew(keys, from, i - 1);
    }
  }

  /** A key that defines a name defines that one only. */
  lemma OneName(key: string)
    requires APPENDER <= key
    ensures forall n | '.' !in n :: APPENDER + n == key <==> Defines(key) && n == NameOf(key)
    ensures '.' !in NameOf(key)
  {
    hide NameOf, Defines;
    DefinitionIs(key);
    forall n | '.' !in n && APPENDER + n == key ensures Defines(key) && n == NameOf(key) { NameIs(n); }
  }

  lemma KeyIsNew(keys: seq<string>, from: nat, i: nat)
    requires Sorted(keys) && from <= i < |keys|
    ensures keys[i] !in keys[from..i]
  {
    if keys[i] in keys[from..i] {
      var j :| from <= j < i && keys[j] == keys[i];
      Distinct(keys, j, i);
    }
  }

  /** When it completes, every appender that is defined was made exactly once. */
  lemma EachAppenderOnce<A>(keys: seq<string>, make: string -> Built<A>)
    requires Sorted(keys) && ScanAll(keys, make).Complete?
    ensures var made := ScanAll(keys, make).made;
      && (forall n :: n in made <==> n != "" && '.' !in n && APPENDER + n in keys)
      && forall a, b | 0 <= a < b < |made| :: made[a] != made[b]
  {
    hide NameOf, Defines, Sorted, ScanFrom;
    var (from, to) := Range(keys, "appender");
    assert "appender" + "." == APPENDER;
    StartsEmpty(keys, from);
    assert Definitions(keys, from, from) == [];
    var stop := ScanMakes(keys, from, from, to, make);
    DefinitionsAreNames(keys, from, to);
    forall n | APPENDER + n in keys ensures APPENDER + n in keys[from..to] {
      var j :| 0 <= j < |keys| && keys[j] == APPENDER + n;
      assert APPENDER <= keys[j] && keys[from..to][j - from] == keys[j];
    }
  }

  /** The definition a key stands behind, or from - 1. */
  lemma OwnDefinition(keys: seq<string>, from: nat, to: nat, x: nat) returns (d: int)
    requires Sorted(keys) && AppenderKeys(keys, from, to) && Followed(keys, from, to) && from <= x < to
    ensures from - 1 <= d <= x && forall j | d < j <= x :: !Defines(keys[j])
    ensures NameOf(keys[x]) == if d < from then "" else NameOf(keys[d])
    ensures d >= from ==> Defines(keys[d]) && keys[d] == APPENDER + NameOf(keys[d])
  {
    hide NameOf, Defines, Sorted;
    d := LastDefinition(keys, from, x + 1);
  }

  /** Where every name is followed, the keys of an appender stand together. */
  lemma RunsAreContiguous(keys: seq<string>, from: nat, to: nat, i: nat, l: nat, j: nat)
    requires Sorted(keys) && AppenderKeys(keys, from, to) && Followed(keys, from, to)
    requires from <= i <= l <= j < to && NameOf(keys[i]) == NameOf(keys[j])
    ensures NameOf(keys[l]) == NameOf(keys[i])
  {
    hide NameOf, Defines, Sorted, Followed;
    var di := OwnDefinition(keys, from, to, i);
    var dl := OwnDefinition(keys, from, to, l);
    var dj := OwnDefinition(keys, from, to, j);
    if dl < dj {
      EmptyFirst(keys, from, dj);
      if di >= from && di < dj { Distinct(keys, di, dj); }
    }
  }

  lemma Distinct(keys: seq<string>, i: int, j: int)
    requires Sorted(keys) && i < j < |keys|
    ensures i >= 0 ==> keys[i] != keys[j]
  {
    if i >= 0 { LessOneWay(keys[i], keys[j]); }
  }

  lemma EmptyFirst(keys: seq<string>, from: nat, i: nat)
    requires Sorted(keys) && from <= i < |keys| && AppenderKeys(keys, from, i + 1)
    ensures Defines(keys[i]) && NameOf(keys[i]) == "" ==> i == from
  {
    if Defines(keys[i]) && NameOf(keys[i]) == "" { EmptyName(keys, from, i); }
  }

  // ----- the categories -----

  lemma StrippedNames(keys: seq<string>, from: nat, upto: nat)
    requires Sorted(keys) && from <= upto <= |keys| && forall j | 0 <= j < |keys| :: from <= j < upto <==> "category." <= keys[j]
    ensures var names := Stripped(keys[from..upto]);
      && (forall c :: c in names <==> "category." + c in keys)
      && forall a, b | 0 <= a < b < |names| :: names[a] != names[b]
  {
    hide Sorted, Stripped;
    var range := keys[from..upto];
    assert forall j | from <= j < upto :: range[j - from] == keys[j];
    var names := Stripped(range);
    forall c ensures c in names <==> "category." + c in keys {
      if c in names {
        var a :| 0 <= a < |names| && names[a] == c;
        assert "category." + c == range[a] && range[a] in keys;
      }
      if "category." + c in keys {
        var j :| 0 <= j < |keys| && keys[j] == "category." + c;
        assert "category." <= keys[j] && range[j - from] == keys[j];
        SamePrefix("category.", names[j - from], c);
      }
    }
    forall a, b | 0 <= a < b < |names| ensures names[a] != names[b] {
      Distinct(keys, from + a, from + b);
      assert range[a] == keys[from + a] && range[b] == keys[from + b];
    }
  }

  /** The root, and then each key "category.name" once; configureCategory takes
      the name "rootCategory" for the root again. */
  lemma CategoriesAreListed(keys: seq<string>)
    requires Sorted(keys)
    ensures var cs := Categories(keys);
      && cs[0] == "rootCategory"
      && (forall c :: c in cs[1..] <==> "category." + c in keys)
      && ((forall a, b | 0 <= a < b < |cs| :: cs[a] != cs[b]) <==> "category.rootCategory" !in keys)
  {
    hide Sorted, Stripped, Range;
    var (from, upto) := Range(keys, "category");
    assert "category" + "." == "category.";
    StrippedNames(keys, from, upto);
    var names := Stripped(keys[from..upto]);
    RootOnce(names);
    assert Categories(keys) == ["rootCategory"] + names;
    assert Categories(keys)[1..] == names;
    assert "category." + "rootCategory" == "category.rootCategory";
  }

  lemma RootOnce(names: seq<string>)
    requires forall a, b | 0 <= a < b < |names| :: names[a] != names[b]
    ensures var cs := ["rootCategory"] + names;
      (forall a, b | 0 <= a < b < |cs| :: cs[a] != cs[b]) <==> "rootCategory" !in names
  {
    var cs := ["rootCategory"] + names;
    if "rootCategory" in names {
      var b :| 0 <= b < |names| && names[b] == "rootCategory";
      assert cs[0] == cs[b + 1];
    } else {
      forall a, b | 0 <= a < b < |cs| ensures cs[a] != cs[b] {
        assert cs[b] == names[b - 1];
      }
    }
  }

  lemma SamePrefix(p: string, a: string, b: string)
    requires p + a == p + b
    ensures a == b
  {
    assert a == (p + a)[|p|..] && b == (p + b)[|p|..];
  }
}
