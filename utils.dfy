/**
  The collection helpers of index.js: `merge`, `shift` and `executeIf`.
  Objects are modelled as property lists (module Js); a handler in the
  dispatch table of `executeIf` takes no arguments, so it is modelled by the
  value it returns.
 */
module Utils {
  import opened Js

  // ---------------------------------------------------------------------
  // merge
  // ---------------------------------------------------------------------

  /** Every argument is an object, so its keys are distinct. */
  predicate AllObjects<V>(args: seq<Props<V>>)
  {
    forall i :: 0 <= i < |args| ==> UniqueKeys(args[i])
  }

  /** The inner loop of `merge`: `for (var item in arg) obj[item] = arg[item]`. */
  function Assign<V>(obj: Props<V>, arg: Props<V>): Props<V>
  {
    if arg == [] then obj
    else Put(Assign(obj, arg[..|arg| - 1]), arg[|arg| - 1].0, arg[|arg| - 1].1)
  }

  /** The whole of `merge`: each argument assigned in turn into a fresh `{}`. */
  function MergeAll<V>(args: seq<Props<V>>): Props<V>
  {
    if args == [] then [] else Assign(MergeAll(args[..|args| - 1]), args[|args| - 1])
  }

  /** Reference value of key k: the one in the last argument that has k. */
  function LastValue<V>(args: seq<Props<V>>, k: string): Option<V>
  {
    if args == [] then None
    else if k in Keys(args[|args| - 1]) then Get(args[|args| - 1], k)
    else LastValue(args[..|args| - 1], k)
  }

  /** The keys that occur in some argument. */
  function KeyUnion<V>(args: seq<Props<V>>): set<string>
  {
    set i, k | 0 <= i < |args| && k in Keys(args[i]) :: k
  }

  lemma {:induction false} AssignKeys<V>(obj: Props<V>, arg: Props<V>)
    ensures Keys(Assign(obj, arg)) == Keys(obj) + Keys(arg)
    ensures UniqueKeys(obj) ==> UniqueKeys(Assign(obj, arg))
  {
    if arg != [] {
      var init, last := arg[..|arg| - 1], arg[|arg| - 1];
      assert arg == init + [last];
      AssignKeys(obj, init);
      KeysSnoc(init, last);
      if UniqueKeys(obj) {
        PutUnique(Assign(obj, init), last.0, last.1);
      }
    }
  }

  /** After the inner loop, a key of arg carries arg's value; every other key is as before. */
  lemma {:induction false} AssignGet<V>(obj: Props<V>, arg: Props<V>, k: string)
    requires UniqueKeys(arg)
    ensures Get(Assign(obj, arg), k) == if k in Keys(arg) then Get(arg, k) else Get(obj, k)
  {
    if arg != [] {
      var init, last := arg[..|arg| - 1], arg[|arg| - 1];
      assert arg == init + [last];
      assert UniqueKeys(init) by {
        forall a, b | 0 <= a < b < |init| ensures init[a].0 != init[b].0 {
          assert init[a] == arg[a] && init[b] == arg[b];
        }
      }
      AssignGet(obj, init, k);
      GetSnoc(init, last, k);
      KeysSnoc(init, last);
    }
  }

  lemma {:induction false} MergeKeys<V>(args: seq<Props<V>>)
    ensures Keys(MergeAll(args)) == KeyUnion(args)
    ensures UniqueKeys(MergeAll(args))
  {
    if args != [] {
      var init, last := args[..|args| - 1], args[|args| - 1];
      MergeKeys(init);
      AssignKeys(MergeAll(init), last);
      forall k | k in KeyUnion(args) ensures k in KeyUnion(init) + Keys(last) {
        var i :| 0 <= i < |args| && k in Keys(args[i]);
        if i < |init| { assert args[i] == init[i]; }
      }
      forall k | k in KeyUnion(init) ensures k in KeyUnion(args) {
        var i :| 0 <= i < |init| && k in Keys(init[i]);
        assert args[i] == init[i];
      }
      assert Keys(last) <= KeyUnion(args) by {
        assert args[|args| - 1] == last;
      }
    }
  }

  /** Later arguments win: every key takes its value from the last argument that has it. */
  lemma {:induction false} MergeGet<V>(args: seq<Props<V>>, k: string)
    requires AllObjects(args)
    ensures Get(MergeAll(args), k) == LastValue(args, k)
  {
    if args != [] {
      var init, last := args[..|args| - 1], args[|args| - 1];
      assert AllObjects(init) by {
        forall i | 0 <= i < |init| ensures UniqueKeys(init[i]) { assert init[i] == args[i]; }
      }
      MergeGet(init, k);
      AssignGet(MergeAll(init), last, k);
    }
  }

  /** Merging one object produces a copy of it, with the same keys in the same order. */
  lemma {:induction false} AssignIntoEmpty<V>(arg: Props<V>)
    requires UniqueKeys(arg)
    ensures Assign([], arg) == arg
  {
    if arg != [] {
      var init, last := arg[..|arg| - 1], arg[|arg| - 1];
      assert arg == init + [last];
      assert UniqueKeys(init) by {
        forall a, b | 0 <= a < b < |init| ensures init[a].0 != init[b].0 {
          assert init[a] == arg[a] && init[b] == arg[b];
        }
      }
      AssignIntoEmpty(init);
      assert last.0 !in Keys(init) by {
        forall i | 0 <= i < |init| ensures init[i].0 != last.0 { assert init[i] == arg[i]; }
        KeysIndex(init, last.0);
      }
    }
  }

  /**
    `merge(...args)`: the outer loop walks the arguments, the inner one an
    argument's properties, assigning each into the fresh result. The
    arguments are values here, so none of them can change.
   */
  method Merge<V>(args: seq<Props<V>>) returns (obj: Props<V>)
    requires AllObjects(args)
    ensures obj == MergeAll(args)
    ensures UniqueKeys(obj)
    ensures Keys(obj) == KeyUnion(args)
    ensures forall k :: Get(obj, k) == LastValue(args, k)
  {
    obj := [];
    var i := 0;
    while i < |args|
      invariant 0 <= i <= |args|
      invariant obj == MergeAll(args[..i])
    {
      var arg := args[i];
      var j := 0;
      while j < |arg|
        invariant 0 <= j <= |arg|
        invariant obj == Assign(MergeAll(args[..i]), arg[..j])
      {
        assert arg[..j + 1][..j] == arg[..j];
        obj := Put(obj, arg[j].0, arg[j].1);
        j := j + 1;
      }
      assert arg[..j] == arg;
      assert args[..i + 1][..i] == args[..i];
      i := i + 1;
    }
    assert args[..i] == args;
    MergeKeys(args);
    forall k ensures Get(obj, k) == LastValue(args, k) {
      MergeGet(args, k);
    }
  }

  /** Assigning x and then y is assigning their concatenation: the inner loop is a left fold. */
  lemma {:induction false} AssignAppend<V>(obj: Props<V>, x: Props<V>, y: Props<V>)
    ensures Assign(obj, x + y) == Assign(Assign(obj, x), y)
  {
    if y == [] {
      assert x + y == x;
    } else {
      assert (x + y)[..|x + y| - 1] == x + y[..|y| - 1];
      AssignAppend(obj, x, y[..|y| - 1]);
    }
  }

  /** Assigning an object none of whose keys is present appends its properties in order. */
  lemma {:induction false} AssignDisjoint<V>(obj: Props<V>, arg: Props<V>)
    requires UniqueKeys(arg) && Keys(obj) !! Keys(arg)
    ensures Assign(obj, arg) == obj + arg
  {
    if arg != [] {
      var init, last := arg[..|arg| - 1], arg[|arg| - 1];
      assert arg == init + [last];
      assert UniqueKeys(init) by {
        forall a, b | 0 <= a < b < |init| ensures init[a].0 != init[b].0 {
          assert init[a] == arg[a] && init[b] == arg[b];
        }
      }
      KeysSnoc(init, last);
      AssignDisjoint(obj, init);
      assert last.0 !in Keys(init) by {
        forall i | 0 <= i < |init| ensures init[i].0 != last.0 { assert init[i] == arg[i]; }
        KeysIndex(init, last.0);
      }
      assert Keys(obj + init) == Keys(obj) + Keys(init) by { KeysAppend(obj, init); }
      assert last.0 !in Keys(obj + init);
      assert obj + init + [last] == obj + arg;
    }
  }

  lemma MergeSingle<V>(arg: Props<V>)
    requires UniqueKeys(arg)
    ensures MergeAll([arg]) == arg
  {
    assert [arg][..0] == [];
    AssignIntoEmpty(arg);
  }

  // ---------------------------------------------------------------------
  // shift
  // ---------------------------------------------------------------------

  /** `n ? n : 1`, where `None` is an absent (undefined) n. */
  function DropCount(n: Option<int>): (c: int)
    ensures c != 0
    ensures n.Some? && n.value != 0 ==> c == n.value
    ensures n.None? || n == Some(0) ==> c == 1
  {
    match n
    case Some(m) => if m != 0 then m else 1
    case None => 1
  }

  /** Where `Array.prototype.slice(start)` starts on length len. */
  function SliceStart(len: nat, start: int): (s: nat)
    ensures s <= len
    ensures 0 <= start ==> s == if start <= len then start else len
    ensures start < 0 ==> s == if -start <= len then len + start else 0
  {
    if start < 0 then (if len + start < 0 then 0 else len + start)
    else if start > len then len
    else start
  }

  /**
    `shift(args, n)`: the values of args in order, without the first
    `n ? n : 1` of them (a negative count keeps the last -n, as slice does).
   */
  function Shift<V>(args: Props<V>, n: Option<int>): (r: seq<V>)
    ensures |r| <= |args|
    ensures r == Values(args)[|args| - |r|..]
    ensures DropCount(n) > 0 ==> |r| == if |args| > DropCount(n) then |args| - DropCount(n) else 0
    ensures DropCount(n) < 0 ==> |r| == if |args| < -DropCount(n) then |args| else -DropCount(n)
  {
    var vals := Values(args);
    vals[SliceStart(|vals|, DropCount(n))..]
  }

  /** Element i of the result is value i + n of the arguments. */
  lemma ShiftAt<V>(args: Props<V>, n: Option<int>, i: nat)
    requires DropCount(n) > 0 && i < |Shift(args, n)|
    ensures Shift(args, n)[i] == args[i + DropCount(n)].1
  {
  }

  /** Leaving n out and passing 0 both drop exactly one value. */
  lemma ShiftDefault<V>(args: Props<V>)
    ensures Shift(args, None) == Shift(args, Some(0)) == Shift(args, Some(1))
    ensures args != [] ==> Shift(args, None) == Values(args[1..])
  {
  }

  /** What shift drops and what it keeps together give back all the values. */
  lemma ShiftSplits<V>(args: Props<V>, n: Option<int>)
    requires DropCount(n) > 0 && DropCount(n) <= |args|
    ensures Values(args[..DropCount(n)]) + Shift(args, n) == Values(args)
  {
  }

  // ---------------------------------------------------------------------
  // executeIf
  // ---------------------------------------------------------------------

  /** What `executeIf` returns: a handler's result, or the literal `false`. */
  datatype Outcome<R> = Ran(result: R) | False

  /** The guard `i && context[i]` of the scan. */
  predicate Selects(context: Props<Value>, key: string)
  {
    key != "" && Truthy(Lookup(context, key))
  }

  /** Index of the first entry of logic, from index i on, whose guard holds. */
  function FirstSelectedFrom<R>(context: Props<Value>, logic: Props<R>, i: nat): (r: Option<nat>)
    requires i <= |logic|
    ensures r.Some? ==> i <= r.value < |logic| && Selects(context, logic[r.value].0)
    ensures r.Some? ==> forall j :: i <= j < r.value ==> !Selects(context, logic[j].0)
    ensures r.None? ==> forall j :: i <= j < |logic| ==> !Selects(context, logic[j].0)
    decreases |logic| - i
  {
    if i == |logic| then None
    else if Selects(context, logic[i].0) then Some(i)
    else FirstSelectedFrom(context, logic, i + 1)
  }

  function FirstSelected<R>(context: Props<Value>, logic: Props<R>): Option<nat>
  {
    FirstSelectedFrom(context, logic, 0)
  }

  /** `logic[''] ? logic['']() : false` */
  function Fallback<R>(logic: Props<R>): Outcome<R>
  {
    match Get(logic, "")
    case Some(h) => Ran(h)
    case None => False
  }

  /** The result `executeIf(context, logic)` specifies. */
  function Choice<R>(context: Props<Value>, logic: Props<R>): Outcome<R>
  {
    match FirstSelected(context, logic)
    case Some(j) => Ran(logic[j].1)
    case None => Fallback(logic)
  }

  /** `executeIf(context, logic)`: scan the table in key order and return early on a match. */
  method ExecuteIf<R>(context: Props<Value>, logic: Props<R>) returns (r: Outcome<R>)
    ensures r == Choice(context, logic)
  {
    var i := 0;
    while i < |logic|
      invariant 0 <= i <= |logic|
      invariant FirstSelectedFrom(context, logic, i) == FirstSelected(context, logic)
    {
      var key := logic[i].0;
      if key != "" && Truthy(Lookup(context, key)) {
        return Ran(logic[i].1);
      }
      i := i + 1;
    }
    r := Fallback(logic);
  }

  lemma {:induction false} FirstSelectedFromUnique<R>(context: Props<Value>, logic: Props<R>, i: nat, j: nat)
    requires i <= j < |logic| && Selects(context, logic[j].0)
    requires forall m :: i <= m < j ==> !Selects(context, logic[m].0)
    ensures FirstSelectedFrom(context, logic, i) == Some(j)
    decreases j - i
  {
    if i < j {
      FirstSelectedFromUnique(context, logic, i + 1, j);
    }
  }

  /** The first entry, in key order, with a non-empty key and a truthy context value wins. */
  lemma FirstMatchWins<R>(context: Props<Value>, logic: Props<R>, j: nat)
    requires j < |logic| && Selects(context, logic[j].0)
    requires forall m :: 0 <= m < j ==> !Selects(context, logic[m].0)
    ensures Choice(context, logic) == Ran(logic[j].1)
  {
    FirstSelectedFromUnique(context, logic, 0, j);
  }

  /** Entries after the selected one are never consulted: replacing them changes nothing. */
  lemma LaterEntriesIgnored<R>(context: Props<Value>, logic: Props<R>, rest: Props<R>, j: nat)
    requires FirstSelected(context, logic) == Some(j)
    ensures Choice(context, logic[..j + 1] + rest) == Choice(context, logic)
  {
    var logic' := logic[..j + 1] + rest;
    assert forall m :: 0 <= m <= j ==> logic'[m] == logic[m];
    FirstMatchWins(context, logic', j);
  }

  /**
    When no non-empty key selects, the `''` handler runs if there is one and
    otherwise the result is `false`; a truthy `context['']` plays no part.
   */
  lemma NoMatchFallsBack<R>(context: Props<Value>, logic: Props<R>)
    requires forall m :: 0 <= m < |logic| && logic[m].0 != "" ==> !Truthy(Lookup(context, logic[m].0))
    ensures "" in Keys(logic) ==> Choice(context, logic) == Ran(Get(logic, "").value)
    ensures "" !in Keys(logic) ==> Choice(context, logic) == False
  {
  }

  /** The scan never selects the entry with the empty key. */
  lemma EmptyKeyNeverSelected<R>(context: Props<Value>, logic: Props<R>)
    requires FirstSelected(context, logic).Some?
    ensures logic[FirstSelected(context, logic).value].0 != ""
  {
  }

  // ---------------------------------------------------------------------
  // The scenarios of the repository's test suite
  // ---------------------------------------------------------------------

  /** merge({a: 1, b: 2, c: 3}, {d: 4, e: 5}) */
  lemma MergeDisjointExample()
    ensures MergeAll([[("a", 1), ("b", 2), ("c", 3)], [("d", 4), ("e", 5)]])
         == [("a", 1), ("b", 2), ("c", 3), ("d", 4), ("e", 5)]
  {
    var o1 := [("a", 1), ("b", 2), ("c", 3)];
    var o2 := [("d", 4), ("e", 5)];
    assert [o1, o2][..1] == [o1];
    MergeSingle(o1);
    AssignDisjoint(o1, o2);
  }

  /** merge({a: 1, b: 2, c: 3}, {a: 6, e: 7, h: 8, d: 9, j: 10}) */
  lemma MergeOverrideExample()
    ensures MergeAll([[("a", 1), ("b", 2), ("c", 3)], [("a", 6), ("e", 7), ("h", 8), ("d", 9), ("j", 10)]])
         == [("a", 6), ("b", 2), ("c", 3), ("e", 7), ("h", 8), ("d", 9), ("j", 10)]
  {
    var o1 := [("a", 1), ("b", 2), ("c", 3)];
    var o3 := [("a", 6), ("e", 7), ("h", 8), ("d", 9), ("j", 10)];
    var first, rest := [("a", 6)], [("e", 7), ("h", 8), ("d", 9), ("j", 10)];
    assert [o1, o3][..1] == [o1];
    MergeSingle(o1);
    assert o3 == first + rest;
    AssignAppend(o1, first, rest);
    OverrideShared();
    OverrideNew();
  }

  /** The shared key a of merge(obj1, obj3) is overwritten in place. */
  lemma OverrideShared()
    ensures Assign([("a", 1), ("b", 2), ("c", 3)], [("a", 6)]) == [("a", 6), ("b", 2), ("c", 3)]
  {
    assert [("a", 6)][..0] == [];
  }

  /** The keys of obj3 that obj1 lacks are appended in their order. */
  lemma OverrideNew()
    ensures Assign([("a", 6), ("b", 2), ("c", 3)], [("e", 7), ("h", 8), ("d", 9), ("j", 10)])
         == [("a", 6), ("b", 2), ("c", 3), ("e", 7), ("h", 8), ("d", 9), ("j", 10)]
  {
    var obj, rest := [("a", 6), ("b", 2), ("c", 3)], [("e", 7), ("h", 8), ("d", 9), ("j", 10)];
    assert Keys(obj) == {"a", "b", "c"};
    assert Keys(rest) == {"e", "h", "d", "j"};
    AssignDisjoint(obj, rest);
  }

  /** shift({0: 'a', 1: 'b', 2: 'c', 3: 'd'}) and shift of the same with n = 2 */
  lemma ShiftExample()
    ensures Shift([("0", 'a'), ("1", 'b'), ("2", 'c'), ("3", 'd')], None) == ['b', 'c', 'd']
    ensures Shift([("0", 'a'), ("1", 'b'), ("2", 'c'), ("3", 'd')], Some(2)) == ['c', 'd']
  {
  }

  /** executeIf with the table {a, b, c, ''} of the test suite */
  lemma ExecuteIfExample()
    ensures Choice([("b", Bool(true))], [("a", "a"), ("b", "b"), ("c", "c"), ("", "empty")]) == Ran("b")
    ensures Choice([("a", Bool(false)), ("c", Bool(true))], [("a", "a"), ("b", "b"), ("c", "c"), ("", "empty")]) == Ran("c")
    ensures Choice([], [("a", "a"), ("b", "b"), ("c", "c"), ("", "empty")]) == Ran("empty")
  {
    var logic := [("a", "a"), ("b", "b"), ("c", "c"), ("", "empty")];
    var c2 := [("a", Bool(false)), ("c", Bool(true))];
    assert Lookup(c2, "b") == Undefined;
    FirstMatchWins(c2, logic, 2);
  }
}
