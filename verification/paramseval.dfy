/** The memoising evaluator with cycle detection, against the unique solution of the symbol equations. */
module ParamsEval {
  import opened Params
  import opened Options

  ghost predicate Solvable(t: Table, a: Arithmetic)
    requires Wellformed(t)
  {
    exists env: Env :: Solves(t, a, env)
  }

  // Uniqueness of the solution.

  /** Some dependency of k on which two solutions differ. */
  lemma DifferingDependency(t: Table, a: Arithmetic, env: Env, env': Env, k: Key) returns (k': Key)
    requires Wellformed(t) && Solves(t, a, env) && Solves(t, a, env') && k in t.symbols && env[k] != env'[k]
    ensures Edge(t, k, k') && env[k'] != env'[k']
  {
    if forall x :: x in Deps(t, k) ==> env[x] == env'[x] {
      if t.symbols[k].raw.Formula? && t.symbols[k].raw.tree.Some? {
        MeaningDependsOnRefs(t, a, env, env', t.symbols[k].raw.tree.value, k.domain);
      }
    }
    k' :| k' in Deps(t, k) && env[k'] != env'[k'];
  }

  /** From a key on which two solutions differ, dependencies lead on for any number of steps. */
  lemma {:induction false} DifferingPath(t: Table, a: Arithmetic, env: Env, env': Env, k: Key, n: nat)
    returns (p: seq<Key>)
    requires Wellformed(t) && Solves(t, a, env) && Solves(t, a, env') && k in t.symbols && env[k] != env'[k]
    ensures |p| == n + 1 && p[0] == k && IsPath(t, p) && forall i :: 0 <= i < |p| ==> p[i] in t.symbols
    decreases n
  {
    if n == 0 {
      p := [k];
    } else {
      var k' := DifferingDependency(t, a, env, env', k);
      var rest := DifferingPath(t, a, env, env', k', n - 1);
      p := [k] + rest;
      assert forall i :: 1 <= i < |p| ==> p[i] == rest[i - 1];
    }
  }

  lemma {:induction false} DistinctFits(s: seq<Key>, all: set<Key>)
    requires Distinct(s) && forall i :: 0 <= i < |s| ==> s[i] in all
    ensures |s| <= |all|
  {
    if s != [] {
      var last := s[|s| - 1];
      DistinctFits(s[..|s| - 1], all - {last});
    }
  }

  /** A path that meets a key again closes a cycle. */
  lemma MeetsAgain(t: Table, p: seq<Key>, i: nat, j: nat)
    requires Wellformed(t) && i < j < |p| && IsPath(t, p) && p[i] == p[j]
    ensures IsCycle(t, p[i..j + 1])
  {
    var c := p[i..j + 1];
    forall x | 0 <= x < |c| - 1 ensures Edge(t, c[x], c[x + 1]) {
      assert c[x] == p[i + x] && c[x + 1] == p[i + x + 1];
    }
  }

  /** Without cycles there is at most one solution, so no order of evaluation can change the values. */
  lemma AcyclicUnique(t: Table, a: Arithmetic, env: Env, env': Env)
    requires Wellformed(t) && Acyclic(t) && Solves(t, a, env) && Solves(t, a, env')
    ensures env == env'
  {
    if k :| k in t.symbols && env[k] != env'[k] {
      var p := DifferingPath(t, a, env, env', k, |t.symbols.Keys|);
      if Distinct(p) {
        DistinctFits(p, t.symbols.Keys);
        assert false;
      }
      var i, j :| 0 <= i < j < |p| && p[i] == p[j];
      MeetsAgain(t, p, i, j);
    }
  }

  /** In a solution every computed parameter has its C type and is within its bounds. */
  lemma SolutionFits(t: Table, a: Arithmetic, env: Env, k: Key)
    requires Wellformed(t) && Solves(t, a, env) && k in t.symbols && t.symbols[k].raw.Formula?
    ensures Fits(env[k], t.symbols[k])
  {
    assert Demand(t, a, env, k) == Ok(env[k]);
    var v := Meaning(t, a, env, t.symbols[k].raw.tree.value, k.domain);
    CoerceFits(v.value, t.symbols[k]);
  }

  // The memo.

  /** Keys in the order they were settled: every dependency comes earlier. */
  ghost predicate Ordered(t: Table, order: seq<Key>)
    requires Wellformed(t)
  {
    forall i :: 0 <= i < |order| ==> order[i] in t.symbols && forall k :: k in Deps(t, order[i]) ==> k in order[..i]
  }

  /** The memo holds what the symbols demand, in terms of itself. */
  ghost predicate Settled(t: Table, a: Arithmetic, memo: Env, order: seq<Key>)
    requires Wellformed(t)
  {
    && Ordered(t, order)
    && (forall k :: k in memo <==> k in order)
    && (forall k :: k in memo ==> k in t.symbols && Demand(t, a, memo, k) == Ok(memo[k]))
  }

  lemma DemandExtends(t: Table, a: Arithmetic, memo: Env, memo': Env, k: Key)
    requires Wellformed(t) && k in t.symbols && Agree(memo, memo', memo.Keys) && Demand(t, a, memo, k).Ok?
    ensures Demand(t, a, memo', k) == Demand(t, a, memo, k)
    ensures Deps(t, k) <= memo.Keys
  {
    if t.symbols[k].raw.Formula? && t.symbols[k].raw.tree.Some? {
      MeaningExtends(t, a, memo, memo', t.symbols[k].raw.tree.value, k.domain);
      MeaningNeedsRefs(t, a, memo, t.symbols[k].raw.tree.value, k.domain);
    }
  }

  lemma SettleOne(t: Table, a: Arithmetic, memo: Env, order: seq<Key>, k: Key)
    requires Wellformed(t) && Settled(t, a, memo, order) && k in t.symbols && Demand(t, a, memo, k).Ok?
    ensures Settled(t, a, memo[k := Demand(t, a, memo, k).value], order + [k])
    ensures Agree(memo, memo[k := Demand(t, a, memo, k).value], memo.Keys)
  {
    var memo' := memo[k := Demand(t, a, memo, k).value];
    forall x | x in memo' ensures Demand(t, a, memo', x) == Ok(memo'[x]) && Deps(t, x) <= memo.Keys {
      DemandExtends(t, a, memo, memo', x);
    }
    var order' := order + [k];
    forall i | 0 <= i < |order'|
      ensures order'[i] in t.symbols && forall y :: y in Deps(t, order'[i]) ==> y in order'[..i]
    {
      assert order'[..i] == order[..i];
    }
  }

  /** Every solution agrees with the memo. */
  lemma {:induction false} SettledAgrees(t: Table, a: Arithmetic, memo: Env, order: seq<Key>, env: Env, n: nat)
    requires Wellformed(t) && Settled(t, a, memo, order) && Solves(t, a, env) && n <= |order|
    ensures forall i :: 0 <= i < n ==> memo[order[i]] == env[order[i]]
    decreases n
  {
    if n > 0 {
      SettledAgrees(t, a, memo, order, env, n - 1);
      var k := order[n - 1];
      assert forall y :: y in Deps(t, k) ==> y in order[..n - 1];
      assert Demand(t, a, memo, k) == Ok(memo[k]) && Demand(t, a, env, k) == Ok(env[k]);
      if t.symbols[k].raw.Formula? && t.symbols[k].raw.tree.Some? {
        MeaningDependsOnRefs(t, a, memo, env, t.symbols[k].raw.tree.value, k.domain);
      }
    }
  }

  function FirstIndex(s: seq<Key>, k: Key): (i: nat)
    requires k in s
    ensures i < |s| && s[i] == k && k !in s[..i]
  {
    if s[0] == k then 0 else 1 + FirstIndex(s[1..], k)
  }

  lemma {:induction false} PathDescends(t: Table, order: seq<Key>, p: seq<Key>)
    requires Wellformed(t) && Ordered(t, order) && |p| >= 2 && IsPath(t, p) && p[0] in order
    ensures p[|p| - 1] in order && FirstIndex(order, p[|p| - 1]) < FirstIndex(order, p[0])
  {
    var i := FirstIndex(order, p[0]);
    assert Edge(t, p[0], p[1]) && p[1] in order[..i];
    var k := FirstIndex(order[..i], p[1]);
    assert order[k] == p[1];
    assert forall j :: 0 <= j < k ==> order[..i][j] in order[..i][..k];
    assert FirstIndex(order, p[1]) <= k by {
      assert forall j :: 0 <= j < FirstIndex(order, p[1]) ==> order[j] in order[..FirstIndex(order, p[1])];
    }
    if |p| > 2 {
      assert forall j :: 0 <= j < |p| - 1 ==> p[1..][j] == p[j + 1];
      PathDescends(t, order, p[1..]);
    }
  }

  lemma OrderedIsAcyclic(t: Table, order: seq<Key>)
    requires Wellformed(t) && Ordered(t, order) && forall k :: k in t.symbols ==> k in order
    ensures Acyclic(t)
  {
    forall p: seq<Key> | IsCycle(t, p) ensures false {
      assert Edge(t, p[0], p[1]);
      PathDescends(t, order, p);
    }
  }

  /** An error that names a real cycle, or leaves no solution. */
  ghost predicate Blames(t: Table, a: Arithmetic, x: Error)
    requires Wellformed(t)
  {
    if x.Cycle? then IsCycle(t, x.chain) else !Solvable(t, a)
  }

  /** The keys under evaluation: each depends on the next. */
  ghost predicate Trail(t: Table, stack: seq<Key>)
    requires Wellformed(t)
  {
    && Distinct(stack) && IsPath(t, stack) && |stack| <= |t.symbols.Keys|
    && forall i :: 0 <= i < |stack| ==> stack[i] in t.symbols
  }

  ghost predicate Leads(t: Table, stack: seq<Key>, k: Key)
    requires Wellformed(t)
  {
    stack != [] ==> Edge(t, stack[|stack| - 1], k)
  }

  lemma Push(t: Table, stack: seq<Key>, k: Key)
    requires Wellformed(t) && Trail(t, stack) && k in t.symbols && k !in stack && Leads(t, stack, k)
    ensures Trail(t, stack + [k]) && |stack| < |t.symbols.Keys|
  {
    DistinctFits(stack + [k], t.symbols.Keys);
  }

  lemma ClosesCycle(t: Table, stack: seq<Key>, k: Key)
    requires Wellformed(t) && IsPath(t, stack) && k in stack && Leads(t, stack, k)
    ensures IsCycle(t, stack[FirstIndex(stack, k)..] + [k])
  {
    var i, p := FirstIndex(stack, k), stack + [k];
    assert IsPath(t, p);
    MeetsAgain(t, p, i, |stack|);
    assert p[i..|stack| + 1] == stack[i..] + [k];
  }

  /** A definition that fails once its references are settled fails in every solution: there is none. */
  lemma FailureIsFinal(t: Table, a: Arithmetic, memo: Env, order: seq<Key>, k: Key)
    requires Wellformed(t) && Settled(t, a, memo, order) && k in t.symbols
    requires Demand(t, a, memo, k).Err? && !Demand(t, a, memo, k).error.Unvalued?
    ensures !Solvable(t, a)
  {
    forall env: Env | Solves(t, a, env) ensures false {
      SettledAgrees(t, a, memo, order, env, |order|);
      assert Agree(memo, env, memo.Keys) by {
        forall x | x in memo ensures memo[x] == env[x] {
          assert order[FirstIndex(order, x)] == x;
        }
      }
      if t.symbols[k].raw.Formula? && t.symbols[k].raw.tree.Some? {
        MeaningExtends(t, a, memo, env, t.symbols[k].raw.tree.value, k.domain);
      }
    }
  }

  /** An evaluation result explained: the meaning under the memo, or a failure that is somebody's fault. */
  ghost predicate Explained<T(!new)>(t: Table, a: Arithmetic, r: Result<T>, meaning: Result<T>)
    requires Wellformed(t)
  {
    (r.Err? && Blames(t, a, r.error)) || (r == meaning && (r.Err? ==> !r.error.Unvalued? && !r.error.Cycle?))
  }

  class Evaluator {
    const t: Table
    const a: Arithmetic
    var memo: Env
    var stack: seq<Key>
    ghost var order: seq<Key>

    ghost predicate Valid()
      reads this
    {
      Wellformed(t) && Settled(t, a, memo, order) && Trail(t, stack)
    }

    constructor (t: Table, a: Arithmetic)
      requires Wellformed(t)
      ensures Valid() && this.t == t && this.a == a && memo == map[] && stack == []
    {
      this.t, this.a := t, a;
      memo, stack, order := map[], [], [];
    }

    method Remember(k: Key, v: Value)
      requires Valid() && k in t.symbols && Demand(t, a, memo, k) == Ok(v)
      modifies this
      ensures Valid() && stack == old(stack)
      ensures memo == old(memo)[k := v] && Agree(old(memo), memo, old(memo).Keys)
    {
      SettleOne(t, a, memo, order, k);
      memo := memo[k := v];
      order := order + [k];
    }

    /** The value of a symbol, from the memo or its definition. */
    method EvalSymbol(k: Key) returns (r: Result<Value>)
      requires Valid() && k in t.symbols && Leads(t, stack, k)
      modifies this
      ensures Valid() && stack == old(stack) && Agree(old(memo), memo, old(memo).Keys)
      ensures r.Ok? ==> k in memo && memo[k] == r.value
      ensures r.Err? ==> Blames(t, a, r.error)
      decreases |t.symbols.Keys| - |stack|, 0
    {
      if k in memo {
        return Ok(memo[k]);
      }
      var s := t.symbols[k];
      if s.raw.Plain? {
        var v := OfLiteral(s.raw.v, s.ctype);
        Remember(k, v);
        return Ok(v);
      }
      if k in stack {
        ClosesCycle(t, stack, k);
        return Err(Cycle(stack[FirstIndex(stack, k)..] + [k]));
      }
      Push(t, stack, k);
      stack := stack + [k];
      if s.raw.tree.None? {
        r := Err(SyntaxError);
      } else {
        r := EvalNode(s.raw.tree.value, k.domain);
      }
      stack := stack[..|stack| - 1];
      assert stack == old(stack);
      if r.Err? {
        if !Blames(t, a, r.error) {
          FailureIsFinal(t, a, memo, order, k);
        }
        return;
      }
      r := Coerce(r.value, s);
      if r.Err? {
        FailureIsFinal(t, a, memo, order, k);
      } else {
        Remember(k, r.value);
      }
    }

    method EvalRef(name: Path, d: Domain) returns (r: Result<Value>)
      requires Valid() && name != [] && stack != [] && RefersTo(t, name, d) <= Deps(t, stack[|stack| - 1])
      modifies this
      ensures Valid() && stack == old(stack) && Agree(old(memo), memo, old(memo).Keys)
      ensures Explained(t, a, r, Lookup(t, memo, name, d))
      decreases |t.symbols.Keys| - |stack|, 1
    {
      var k := Resolve(t, name, d);
      if k.Err? {
        return Err(k.error);
      }
      r := EvalSymbol(k.value);
    }

    method EvalNode(e: Expr, d: Domain) returns (r: Result<Value>)
      requires Valid() && stack != [] && Refs(t, e, d) <= Deps(t, stack[|stack| - 1])
      modifies this
      ensures Valid() && stack == old(stack) && Agree(old(memo), memo, old(memo).Keys)
      ensures Explained(t, a, r, Meaning(t, a, memo, e, d))
      decreases |t.symbols.Keys| - |stack|, 2, e, 1
    {
      match e
      case Constant(c) => r := if c.Number? then Ok(c.v) else Err(Unsupported);
      case Name(id) =>
        if id == "pi" {
          r := Ok(a.pi);
        } else {
          r := EvalRef([id], d);
        }
      case Attribute(_, _) =>
        var name := Dotted(e);
        if name.Err? {
          NotAReferenceOnly(e);
          return Err(name.error);
        }
        r := EvalRef(name.value, d);
      case Binary(_, _, _) => r := EvalBinary(e, d);
      case Unary(op, operand) =>
        if op.OtherUnaryOp? {
          return Err(Unsupported);
        }
        r := EvalNode(operand, d);
        if r.Ok? {
          r := Computed(a.unary(op, r.value));
        }
      case Call(func, args) =>
        if !func.Name? || func.id !in FUNCTIONS {
          return Err(Unsupported);
        }
        var vs := EvalArgs(args, d);
        r := if vs.Err? then Err(vs.error) else Computed(a.call(func.id, vs.value));
      case OtherSyntax => r := Err(Unsupported);
    }

    method EvalBinary(e: Expr, d: Domain) returns (r: Result<Value>)
      requires e.Binary? && Valid() && stack != [] && Refs(t, e, d) <= Deps(t, stack[|stack| - 1])
      modifies this
      ensures Valid() && stack == old(stack) && Agree(old(memo), memo, old(memo).Keys)
      ensures Explained(t, a, r, Meaning(t, a, memo, e, d))
      decreases |t.symbols.Keys| - |stack|, 2, e, 0
    {
      if e.op.OtherBinOp? {
        return Err(Unsupported);
      }
      var l := EvalNode(e.left, d);
      if l.Err? {
        return l;
      }
      ghost var between := memo;
      var v := EvalNode(e.right, d);
      MeaningExtends(t, a, between, memo, e.left, d);
      if v.Err? {
        return v;
      }
      r := Operate(a, e.op, l.value, v.value);
    }

    method EvalArgs(es: seq<Expr>, d: Domain) returns (r: Result<seq<Value>>)
      requires Valid() && stack != [] && AllRefs(t, es, d) <= Deps(t, stack[|stack| - 1])
      modifies this
      ensures Valid() && stack == old(stack) && Agree(old(memo), memo, old(memo).Keys)
      ensures Explained(t, a, r, Meanings(t, a, memo, es, d))
      decreases |t.symbols.Keys| - |stack|, 2, es
    {
      if es == [] {
        return Ok([]);
      }
      var v := EvalNode(es[0], d);
      if v.Err? {
        return Err(v.error);
      }
      ghost var between := memo;
      var vs := EvalArgs(es[1..], d);
      MeaningExtends(t, a, between, memo, es[0], d);
      r := if vs.Err? then vs else Ok([v.value] + vs.value);
    }

    /**
     * The driver: success exactly on the acyclic tables with a solution, and then the memo is that solution;
     * a failure names a genuine cycle or a definition that no assignment can meet.
     */
    method EvalAll(keys: seq<Key>) returns (failure: Option<Error>)
      requires Valid() && stack == [] && forall k :: k in keys <==> k in t.symbols
      modifies this
      ensures Valid() && stack == []
      ensures failure.None? <==> Acyclic(t) && Solvable(t, a)
      ensures failure.None? ==> Solves(t, a, memo)
      ensures failure.Some? ==> Blames(t, a, failure.value)
    {
      var i := 0;
      while i < |keys|
        invariant 0 <= i <= |keys|
        invariant Valid() && stack == []
        invariant forall j :: 0 <= j < i ==> keys[j] in memo
      {
        var r := EvalSymbol(keys[i]);
        if r.Err? {
          assert r.error.Cycle? ==> IsCycle(t, r.error.chain);
          return Some(r.error);
        }
        i := i + 1;
      }
      assert memo.Keys == t.symbols.Keys;
      OrderedIsAcyclic(t, order);
      assert Solves(t, a, memo);
      failure := None;
    }
  }

  lemma {:induction false} NotAReferenceOnly(e: Expr)
    ensures Dotted(e).Err? ==> Dotted(e).error == NotAReference
  {
    if e.Attribute? {
      NotAReferenceOnly(e.base);
    }
  }
}
