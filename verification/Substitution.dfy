/** Properties::_substituteVariables: "${name}" in a value is replaced from the
    environment, or else from the properties read so far. */
module Substitution {
  import opened Strings

  type Props = map<string, string>

  predicate OpenAt(s: string, j: int) {
    0 <= j < |s| - 1 && s[j] == '$' && s[j + 1] == '{'
  }

  /** Where the next "${" starts, or the length. */
  function FindOpen(s: string, from: nat): (i: nat)
    requires from <= |s|
    ensures from <= i <= |s| && (i < |s| ==> OpenAt(s, i))
    ensures forall j | from <= j < i :: !OpenAt(s, j)
    decreases |s| - from
  {
    if from == |s| || OpenAt(s, from) then from else FindOpen(s, from + 1)
  }

  /** What "${key}" stands for; "${${}" stands for "${" itself. */
  function Lookup(key: string, env: Props, props: Props): string {
    if key == "${" then "${"
    else if key in env then env[key]
    else if key in props then props[key]
    else ""
  }

  /** Left to right; what was put in is not looked at again, and an opening
      without a '}' is kept with all that follows. */
  function Subst(s: string, env: Props, props: Props): string
    decreases |s|
  {
    var i := FindOpen(s, 0);
    if i == |s| then s
    else
      var j := Find(s, '}', i + 2);
      if j == |s| then s
      else s[..i] + (Lookup(s[i + 2..j], env, props) + Subst(s[j + 1..], env, props))
  }

  lemma FindOpenIs(s: string, from: nat, i: nat)
    requires from <= i <= |s| && (i < |s| ==> OpenAt(s, i))
    requires forall j | from <= j < i :: !OpenAt(s, j)
    ensures FindOpen(s, from) == i
  {
  }

  /** One turn of the substitution, for a value whose first opening is at i. */
  lemma SubstStep(s: string, i: nat, j: nat, env: Props, props: Props)
    requires i < |s| && OpenAt(s, i) && (forall k | 0 <= k < i :: !OpenAt(s, k))
    requires i + 2 <= j <= |s| && (j < |s| ==> s[j] == '}') && forall k | i + 2 <= k < j :: s[k] != '}'
    ensures Subst(s, env, props) ==
      if j == |s| then s else s[..i] + (Lookup(s[i + 2..j], env, props) + Subst(s[j + 1..], env, props))
  {
    hide Lookup, OpenAt, FindOpen, Find;
    FindOpenIs(s, 0, i);
    FindIs(s, '}', i + 2, j);
  }

  /** The same inside a longer value, from left on. */
  lemma SubstFrom(value: string, left: nat, right: nat, env: Props, props: Props)
    requires left <= right <= |value| && right == FindOpen(value, left)
    ensures var rest := Subst(value[left..], env, props);
      if right == |value| then rest == value[left..]
      else
        var close := Find(value, '}', right + 2);
        if close == |value| then rest == value[left..]
        else rest == value[left..right] + (Lookup(value[right + 2..close], env, props) + Subst(value[close + 1..], env, props))
  {
    hide Lookup, Subst, FindOpen, Find, OpenAt;
    var s := value[left..];
    OpenInside(value, left, right);
    if right == |value| {
      NoOpeningIsUnchanged(s, env, props);
    } else {
      var close := Find(value, '}', right + 2);
      SubstStep(s, right - left, close - left, env, props);
      assert s[..right - left] == value[left..right];
      if close < |value| {
        assert s[right - left + 2..close - left] == value[right + 2..close];
        assert s[close - left + 1..] == value[close + 1..];
      }
    }
  }

  lemma OpenInside(value: string, left: nat, right: nat)
    requires left <= right <= |value| && right == FindOpen(value, left)
    ensures forall j | 0 <= j < right - left :: !OpenAt(value[left..], j)
    ensures right < |value| ==> right + 2 <= |value| && OpenAt(value[left..], right - left)
  {
    forall j | 0 <= j < right - left ensures !OpenAt(value[left..], j) {
      assert !OpenAt(value, left + j);
    }
  }

  method SubstituteVariables(value: string, env: Props, props: Props) returns (r: string)
    ensures r == Subst(value, env, props)
  {
    hide Lookup, Subst, FindOpen, Find, OpenAt;
    var result := "";
    var left := 0;
    var right := FindOpen(value, left);
    if right == |value| {
      NoOpeningIsUnchanged(value, env, props);
      return value;
    }
    assert value[0..] == value;
    while true
      invariant 0 <= left <= right <= |value| && right == FindOpen(value, left)
      invariant result + Subst(value[left..], env, props) == Subst(value, env, props)
      decreases |value| - left
    {
      SubstFrom(value, left, right, env, props);
      ghost var done := result;
      result := result + value[left..right];
      if right == |value| {
        break;
      }
      OpenHasRoom(value, right);
      ghost var open := right;
      ghost var from := left;
      left := right + 2;
      right := Find(value, '}', left);
      if right == |value| {
        result := result + value[left - 2..];
        assert value[from..] == value[from..open] + value[open..];
        Associative(done, value[from..open], value[open..]);
        break;
      }
      var key := value[left..right];
      Associative4(done, value[from..open], Lookup(key, env, props), Subst(value[right + 1..], env, props));
      result := result + Lookup(key, env, props);
      left := right + 1;
      right := FindOpen(value, left);
    }
    return result;
  }

  lemma Associative(a: string, b: string, c: string)
    ensures (a + b) + c == a + (b + c)
  {
  }

  lemma Associative4(a: string, b: string, c: string, d: string)
    ensures ((a + b) + c) + d == a + (b + (c + d))
  {
  }

  // ----- what the substitution promises -----

  lemma NoOpeningIsUnchanged(s: string, env: Props, props: Props)
    requires forall j | 0 <= j < |s| :: !OpenAt(s, j)
    ensures Subst(s, env, props) == s
  {
  }

  /** Every "${" written as "${${}". */
  function Escape(s: string): string {
    if s == "" then ""
    else if OpenAt(s, 0) then "${${}" + Escape(s[2..])
    else [s[0]] + Escape(s[1..])
  }

  /** A first character that opens nothing is copied. */
  lemma SubstCons(c: char, t: string, env: Props, props: Props)
    requires !OpenAt([c] + t, 0)
    ensures Subst([c] + t, env, props) == [c] + Subst(t, env, props)
  {
    hide Lookup, Subst, FindOpen, Find, OpenAt;
    var i := FindOpen(t, 0);
    OpenShifts(c, t, i);
    if i == |t| {
      NoOpeningIsUnchanged([c] + t, env, props);
      NoOpeningIsUnchanged(t, env, props);
    } else {
      OpenHasRoom(t, i);
      SubstConsAt(c, t, i, Find(t, '}', i + 2), env, props);
    }
  }

  lemma SubstConsAt(c: char, t: string, i: nat, j: nat, env: Props, props: Props)
    requires i + 2 <= j <= |t| && OpenAt(t, i) && OpenAt([c] + t, i + 1)
    requires (forall k | 0 <= k < i :: !OpenAt(t, k)) && forall k | 0 <= k < i + 1 :: !OpenAt([c] + t, k)
    requires (j < |t| ==> t[j] == '}') && forall k | i + 2 <= k < j :: t[k] != '}'
    ensures Subst([c] + t, env, props) == [c] + Subst(t, env, props)
  {
    hide Lookup, Subst, OpenAt;
    var s := [c] + t;
    SubstStep(t, i, j, env, props);
    SubstStep(s, i + 1, j + 1, env, props);
    if j < |t| {
      SlicesShift(c, t, i, j);
      Associative([c], t[..i], Lookup(t[i + 2..j], env, props) + Subst(t[j + 1..], env, props));
    }
  }

  lemma SlicesShift(c: char, t: string, i: nat, j: nat)
    requires i + 2 <= j < |t|
    ensures var s := [c] + t; s[..i + 1] == [c] + t[..i] && s[i + 3..j + 1] == t[i + 2..j] && s[j + 2..] == t[j + 1..]
  {
  }

  lemma OpenHasRoom(t: string, i: int)
    requires OpenAt(t, i)
    ensures i + 2 <= |t|
  {
  }

  lemma OpenShifts(c: char, t: string, i: nat)
    requires !OpenAt([c] + t, 0) && i == FindOpen(t, 0)
    ensures forall j | 0 <= j < i + 1 :: !OpenAt([c] + t, j)
    ensures i < |t| ==> OpenAt([c] + t, i + 1)
  {
    forall j | 0 <= j < i + 1 ensures !OpenAt([c] + t, j) {
      assert j > 0 ==> !OpenAt(t, j - 1);
    }
  }

  lemma SubstEscaped(t: string, env: Props, props: Props)
    ensures Subst("${${}" + t, env, props) == "${" + Subst(t, env, props)
  {
    hide Subst;
    var s := "${${}" + t;
    SubstStep(s, 0, 4, env, props);
    assert s[2..4] == "${" && s[5..] == t && s[..0] == "";
  }

  /** Any text survives substitution once it is escaped, whatever is defined. */
  lemma {:induction false} EscapeUndoes(s: string, env: Props, props: Props)
    ensures Subst(Escape(s), env, props) == s
    decreases |s|
  {
    hide Lookup, Subst;
    if s == "" {
      NoOpeningIsUnchanged("", env, props);
    } else if OpenAt(s, 0) {
      EscapeUndoes(s[2..], env, props);
      SubstEscaped(Escape(s[2..]), env, props);
      assert s == "${" + s[2..];
    } else {
      EscapeUndoes(s[1..], env, props);
      EscapeStart(s[1..]);
      SubstCons(s[0], Escape(s[1..]), env, props);
      assert s == [s[0]] + s[1..];
    }
  }

  lemma EscapeStart(t: string)
    ensures Escape(t) == "" <==> t == ""
    ensures t != "" ==> Escape(t)[0] == t[0]
  {
  }

  /** Inserted text is not rescanned: a value that defines itself comes out once. */
  lemma InsertedIsNotRescanned(name: string, before: string, after: string, env: Props, props: Props)
    requires '}' !in name && forall j | 0 <= j < |before| :: !OpenAt(before, j)
    ensures Subst(before + "${" + name + "}" + after, env, props) == before + (Lookup(name, env, props) + Subst(after, env, props))
  {
    hide Lookup, Subst;
    var s := before + "${" + name + "}" + after;
    var i := |before|;
    var j := i + 2 + |name|;
    assert OpenAt(s, i) && s[j] == '}' && s[i + 2..j] == name && s[j + 1..] == after && s[..i] == before;
    forall k | 0 <= k < i ensures !OpenAt(s, k) { assert !OpenAt(before, k); }
    SubstStep(s, i, j, env, props);
  }

  /** A variable alone: the environment comes first, then the properties; a name that
      neither has stands for nothing. */
  lemma EnvironmentFirst(k: string, env: Props, props: Props)
    requires '}' !in k && k != "${" && k in env
    ensures Subst("${" + k + "}", env, props) == env[k]
  {
    OneVariable(k, env, props);
  }

  lemma PropertiesNext(k: string, env: Props, props: Props)
    requires '}' !in k && k != "${" && k !in env && k in props
    ensures Subst("${" + k + "}", env, props) == props[k]
  {
    OneVariable(k, env, props);
  }

  lemma UndefinedIsEmpty(k: string, env: Props, props: Props)
    requires '}' !in k && k != "${" && k !in env && k !in props
    ensures Subst("${" + k + "}", env, props) == ""
  {
    OneVariable(k, env, props);
  }

  lemma OneVariable(k: string, env: Props, props: Props)
    requires '}' !in k
    ensures Subst("${" + k + "}", env, props) == Lookup(k, env, props)
  {
    hide Lookup, Subst;
    InsertedIsNotRescanned(k, "", "", env, props);
    NoOpeningIsUnchanged("", env, props);
    assert "" + "${" + k + "}" + "" == "${" + k + "}";
    assert "" + (Lookup(k, env, props) + "") == Lookup(k, env, props);
  }

  /** An opening that is never closed stays, with all behind it. */
  lemma UnclosedIsKept(before: string, rest: string, env: Props, props: Props)
    requires '}' !in rest && forall j | 0 <= j < |before| :: !OpenAt(before, j)
    ensures Subst(before + ("${" + rest), env, props) == before + ("${" + rest)
  {
    hide Subst, Lookup;
    var s := before + ("${" + rest);
    var i := |before|;
    assert OpenAt(s, i);
    forall k | 0 <= k < i ensures !OpenAt(s, k) { assert !OpenAt(before, k); }
    SubstStep(s, i, |s|, env, props);
  }
}
