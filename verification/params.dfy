/** The parameter expression language of scripts/gen_params.py: symbols, references, meaning of an expression. */
module Params {
  import opened Options

  datatype Domain = Motor | Hardware | Software

  /** A dotted path, by its parts. */
  type Path = seq<string>

  datatype Key = Key(domain: Domain, path: Path)

  datatype Leaf = Leaf(domain: Domain, name: string)

  /** A Python number; NaN and the infinities are one value. */
  datatype Value = Int(i: int) | Float(r: real) | NonFinite | Complex(re: real, im: real)

  datatype Literal = Number(v: Value) | NotANumber

  datatype BinOp = Add | Sub | Mult | Div | Pow | OtherBinOp
  datatype UnaryOp = UAdd | USub | OtherUnaryOp

  /** The syntax tree the evaluator walks. */
  datatype Expr =
    | Constant(value: Literal)
    | Name(id: string)
    | Attribute(base: Expr, attr: string)
    | Binary(op: BinOp, left: Expr, right: Expr)
    | Unary(uop: UnaryOp, operand: Expr)
    | Call(func: Expr, args: seq<Expr>)
    | OtherSyntax

  datatype CType = U8 | U16 | U32 | F32

  /** A checked literal, or an expression with its parse (None for a syntax error). */
  datatype Raw = Plain(v: Value) | Formula(tree: Option<Expr>)

  datatype Symbol = Symbol(raw: Raw, ctype: CType, lo: Option<real>, hi: Option<real>)

  datatype Table = Table(symbols: map<Key, Symbol>, leaves: map<Leaf, seq<Path>>)

  datatype Error =
    | Undefined | AmbiguousName(candidates: seq<Path>) | NotAReference
    | Unsupported | PowerTooLarge | Raised | SyntaxError
    | NotNumeric | NotFinite | NotWhole | OutOfRange
    | Cycle(chain: seq<Key>)
    | Unvalued(key: Key)

  datatype Result<T> = Ok(value: T) | Err(error: Error)

  /** Python's arithmetic: None where it raises. */
  datatype Arithmetic = Arithmetic(
    binary: (BinOp, Value, Value) -> Option<Value>,
    unary: (UnaryOp, Value) -> Option<Value>,
    call: (string, seq<Value>) -> Option<Value>,
    pi: Value)

  const FUNCTIONS: set<string> := {"sqrt", "sin", "cos", "atan2", "min", "max", "abs"}

  function Computed(v: Option<Value>): Result<Value> { if v.None? then Err(Raised) else Ok(v.value) }

  // References.

  function DomainOf(part: string): Option<Domain> {
    if part == "motor" then Some(Motor)
    else if part == "hardware" then Some(Hardware)
    else if part == "software" then Some(Software)
    else None
  }

  function Dotted(e: Expr): (r: Result<Path>)
    ensures r.Ok? ==> r.value != []
  {
    match e
    case Name(id) => Ok([id])
    case Attribute(base, attr) => (
      match Dotted(base)
      case Ok(p) => Ok(p + [attr])
      case Err(x) => Err(x))
    case _ => Err(NotAReference)
  }

  /** Every leaf entry lists at least one path, and only paths of symbols. */
  ghost predicate Wellformed(t: Table) {
    forall l: Leaf :: l in t.leaves ==>
      t.leaves[l] != [] && forall i :: 0 <= i < |t.leaves[l]| ==> Key(l.domain, t.leaves[l][i]) in t.symbols
  }

  /** The symbol a dotted name stands for: another domain's path, a path of this domain, or a unique leaf. */
  function Resolve(t: Table, name: Path, d: Domain): (r: Result<Key>)
    requires Wellformed(t) && name != []
    ensures r.Ok? ==> r.value in t.symbols
    ensures r.Err? ==> r.error.Undefined? || r.error.AmbiguousName?
  {
    if DomainOf(name[0]).Some? then
      var k := Key(DomainOf(name[0]).value, name[1..]);
      if k in t.symbols then Ok(k) else Err(Undefined)
    else if Key(d, name) in t.symbols then Ok(Key(d, name))
    else if |name| == 1 && Leaf(d, name[0]) in t.leaves then
      var matches := t.leaves[Leaf(d, name[0])];
      if |matches| > 1 then Err(AmbiguousName(matches)) else Ok(Key(d, matches[0]))
    else Err(Undefined)
  }

  /** The paths of one domain that end in a name, in order. */
  function WithLeaf(paths: seq<Path>, name: string): (r: seq<Path>)
    ensures forall p :: p in r <==> p in paths && LeafIs(p, name)
  {
    if paths == [] then []
    else
      var p := paths[|paths| - 1];
      WithLeaf(paths[..|paths| - 1], name) + if LeafIs(p, name) then [p] else []
  }

  ghost predicate Distinct<T>(s: seq<T>) { forall i, j :: 0 <= i < j < |s| ==> s[i] != s[j] }

  lemma {:induction false} WithLeafDistinct(paths: seq<Path>, name: string)
    requires Distinct(paths)
    ensures Distinct(WithLeaf(paths, name))
  {
    if paths != [] {
      WithLeafDistinct(paths[..|paths| - 1], name);
    }
  }

  predicate LeafIs(p: Path, name: string) { p != [] && p[|p| - 1] == name }

  lemma WithLeafStep(paths: seq<Path>, p: Path, name: string)
    ensures WithLeaf(paths + [p], name) == WithLeaf(paths, name) + if LeafIs(p, name) then [p] else []
  {
    assert (paths + [p])[..|paths|] == paths;
  }

  /** The leaf table of a list of paths. */
  ghost predicate LeavesOf(leaves: map<string, seq<Path>>, paths: seq<Path>) {
    forall name: string ::
      (name in leaves <==> WithLeaf(paths, name) != []) && (name in leaves ==> leaves[name] == WithLeaf(paths, name))
  }

  lemma LeavesStep(leaves: map<string, seq<Path>>, paths: seq<Path>, p: Path)
    requires LeavesOf(leaves, paths) && p != []
    ensures var leaf := p[|p| - 1];
            LeavesOf(leaves[leaf := (if leaf in leaves then leaves[leaf] else []) + [p]], paths + [p])
  {
    forall name: string {
      WithLeafStep(paths, p, name);
    }
  }

  method BuildLeaves(paths: seq<Path>) returns (leaves: map<string, seq<Path>>)
    requires forall i :: 0 <= i < |paths| ==> paths[i] != []
    ensures LeavesOf(leaves, paths)
  {
    leaves := map[];
    var i := 0;
    while i < |paths|
      invariant 0 <= i <= |paths|
      invariant LeavesOf(leaves, paths[..i])
    {
      var leaf := paths[i][|paths[i]| - 1];
      LeavesStep(leaves, paths[..i], paths[i]);
      assert paths[..i] + [paths[i]] == paths[..i + 1];
      if leaf !in leaves {
        leaves := leaves[leaf := []];
      }
      leaves := leaves[leaf := leaves[leaf] + [paths[i]]];
      i := i + 1;
    }
    assert paths[..i] == paths;
  }

  /** The table lists the paths of each domain once, and its leaves are those of the paths. */
  ghost predicate Indexed(t: Table, paths: map<Domain, seq<Path>>) {
    && (forall d: Domain :: d in paths && Distinct(paths[d]))
    && (forall k: Key :: k in t.symbols <==> k.path in paths[k.domain])
    && (forall l: Leaf :: l in t.leaves <==> WithLeaf(paths[l.domain], l.name) != [])
    && (forall l: Leaf :: l in t.leaves ==> t.leaves[l] == WithLeaf(paths[l.domain], l.name))
  }

  lemma IndexedIsWellformed(t: Table, paths: map<Domain, seq<Path>>)
    requires Indexed(t, paths)
    ensures Wellformed(t)
  {
    forall l: Leaf, i | l in t.leaves && 0 <= i < |t.leaves[l]|
      ensures Key(l.domain, t.leaves[l][i]) in t.symbols
    {
      assert t.leaves[l][i] in WithLeaf(paths[l.domain], l.name);
    }
  }

  /** Key k of domain d ends in the given name. */
  predicate EndsIn(k: Key, d: Domain, name: string) {
    k.domain == d && LeafIs(k.path, name)
  }

  /** A bare name that is no domain and no path means the one symbol with that leaf: exactly when there is only one. */
  lemma BareNameMeansTheOnlyLeaf(t: Table, paths: map<Domain, seq<Path>>, d: Domain, name: string, k: Key)
    requires Indexed(t, paths) && DomainOf(name).None? && Key(d, [name]) !in t.symbols
    ensures Wellformed(t)
    ensures Resolve(t, [name], d) == Ok(k) <==>
            k in t.symbols && EndsIn(k, d, name) && forall k' :: k' in t.symbols && EndsIn(k', d, name) ==> k' == k
  {
    IndexedIsWellformed(t, paths);
    var all := WithLeaf(paths[d], name);
    WithLeafDistinct(paths[d], name);
    if all != [] {
      assert Leaf(d, name) in t.leaves;
      assert all[0] in all && Key(d, all[0]) in t.symbols && EndsIn(Key(d, all[0]), d, name);
      if |all| > 1 {
        assert all[1] in all && all[0] != all[1];
        assert Key(d, all[1]) in t.symbols && EndsIn(Key(d, all[1]), d, name);
      } else {
        forall k' | k' in t.symbols && EndsIn(k', d, name)
          ensures k' == Key(d, all[0])
        {
          assert k'.path in all;
        }
      }
    } else {
      assert Leaf(d, name) !in t.leaves;
      assert k.path !in all;
    }
  }

  // Coercion to the declared C type.

  function TypeMax(c: CType): int { match c case U8 => 255 case U16 => 65535 case _ => 4294967295 }

  function AsReal(v: Value): real
    requires v.Int? || v.Float?
  {
    if v.Int? then v.i as real else v.r
  }

  function Nearest(r: real): int { (r + 0.5).Floor }

  function Distance(a: real, b: real): real { if a < b then b - a else a - b }

  predicate Within(r: real, lo: Option<real>, hi: Option<real>) {
    (lo.Some? ==> lo.value <= r) && (hi.Some? ==> r <= hi.value)
  }

  function Coerce(v: Value, s: Symbol): Result<Value> {
    if v.Complex? then Err(NotNumeric)
    else if v.NonFinite? then Err(NotFinite)
    else if s.ctype.F32? then
      if Within(AsReal(v), s.lo, s.hi) then Ok(Float(AsReal(v))) else Err(OutOfRange)
    else
      var r := Nearest(AsReal(v));
      if Distance(AsReal(v), r as real) > 0.000000001 then Err(NotWhole)
      else if 0 <= r <= TypeMax(s.ctype) && Within(r as real, s.lo, s.hi) then Ok(Int(r))
      else Err(OutOfRange)
  }

  /** A value fit for its symbol: of its C type and within its bounds. */
  predicate Fits(v: Value, s: Symbol) {
    if s.ctype.F32? then v.Float? && Within(v.r, s.lo, s.hi)
    else v.Int? && 0 <= v.i <= TypeMax(s.ctype) && Within(v.i as real, s.lo, s.hi)
  }

  /** Coercion yields exactly the fit values, leaves them alone, and moves none by more than the tolerance. */
  lemma CoerceFits(v: Value, s: Symbol)
    ensures Coerce(v, s).Ok? ==> Fits(Coerce(v, s).value, s)
    ensures Fits(v, s) ==> Coerce(v, s) == Ok(v)
    ensures Coerce(v, s).Ok? ==> Distance(AsReal(v), AsReal(Coerce(v, s).value)) <= 0.000000001
  {
    if v.Int? {
      assert (v.i as real + 0.5).Floor == v.i;
    }
  }

  /** A finite number as a real. */
  predicate Amounts(v: Value, r: real) { v == Float(r) || (v.Int? && v.i as real == r) }

  /** The whole number k that a value is meant to be, up to the tolerance. */
  predicate Means(r: real, k: int) { -0.000000001 <= r - k as real <= 0.000000001 }

  /** A real parameter takes any finite number from its lower to its upper bound, both included, and nothing else. */
  lemma RealCoercion(v: Value, s: Symbol, r: real)
    requires s.ctype.F32?
    ensures Amounts(v, r) ==>
              Coerce(v, s) == if (s.lo.Some? && r < s.lo.value) || (s.hi.Some? && r > s.hi.value)
                              then Err(OutOfRange) else Ok(Float(r))
    ensures v == NonFinite ==> Coerce(v, s) == Err(NotFinite)
    ensures v.Complex? ==> Coerce(v, s) == Err(NotNumeric)
  {
  }

  /** The greatest value of a whole type. */
  predicate Greatest(c: CType, n: int) {
    (c == U8 && n == 255) || (c == U16 && n == 65535) || (c == U32 && n == 4294967295)
  }

  /** A whole parameter takes the whole number its value means, within its type and its bounds, and nothing else. */
  lemma WholeCoercion(v: Value, s: Symbol, r: real, k: int, greatest: int)
    requires Greatest(s.ctype, greatest) && Amounts(v, r)
    ensures Means(r, k) ==>
              Coerce(v, s) == if k < 0 || k > greatest || (s.lo.Some? && k as real < s.lo.value)
                                 || (s.hi.Some? && k as real > s.hi.value)
                              then Err(OutOfRange) else Ok(Int(k))
    ensures (forall j: int :: !Means(r, j)) ==> Coerce(v, s) == Err(NotWhole)
  {
    if !Means(r, Nearest(r)) {
      assert !Means(r, k);
    } else if Means(r, k) {
      NearestIs(r, k);
    }
  }

  lemma NearestIs(r: real, k: int)
    requires -0.5 < r - k as real < 0.5
    ensures Nearest(r) == k
  {
  }

  /** A literal is converted, not coerced: its range was checked when it was read. */
  function OfLiteral(v: Value, c: CType): Value {
    match v
    case Int(i) => if c.F32? then Float(i as real) else v
    case Float(r) => if c.F32? then v else Int(if r >= 0.0 then r.Floor else -((-r).Floor))
    case _ => v
  }

  /** Whole literals of whole parameters stay, real ones lose their fraction, and real parameters get reals. */
  lemma LiteralIs(r: real, i: int, c: CType)
    ensures OfLiteral(Int(i), c) == if c == F32 then Float(i as real) else Int(i)
    ensures c == F32 ==> OfLiteral(Float(r), c) == Float(r)
    ensures c != F32 ==>
              var v := OfLiteral(Float(r), c);
              v.Int? && (r >= 0.0 ==> v.i as real <= r < v.i as real + 1.0)
              && (r <= 0.0 ==> v.i as real - 1.0 < r <= v.i as real)
  {
  }

  // Meaning.

  type Env = map<Key, Value>

  function Lookup(t: Table, env: Env, name: Path, d: Domain): Result<Value>
    requires Wellformed(t) && name != []
  {
    match Resolve(t, name, d)
    case Err(x) => Err(x)
    case Ok(k) => if k in env then Ok(env[k]) else Err(Unvalued(k))
  }

  /** The value of an expression when the symbols have the values of env. */
  function Meaning(t: Table, a: Arithmetic, env: Env, e: Expr, d: Domain): Result<Value>
    requires Wellformed(t)
    decreases e
  {
    match e
    case Constant(c) => if c.Number? then Ok(c.v) else Err(Unsupported)
    case Name(id) => if id == "pi" then Ok(a.pi) else Lookup(t, env, [id], d)
    case Attribute(_, _) => (
      match Dotted(e)
      case Err(x) => Err(x)
      case Ok(name) => Lookup(t, env, name, d))
    case Binary(op, left, right) =>
      if op.OtherBinOp? then Err(Unsupported)
      else (
        match Meaning(t, a, env, left, d)
        case Err(x) => Err(x)
        case Ok(l) =>
          match Meaning(t, a, env, right, d)
          case Err(x) => Err(x)
          case Ok(r) => Operate(a, op, l, r))
    case Unary(op, operand) =>
      if op.OtherUnaryOp? then Err(Unsupported)
      else (
        match Meaning(t, a, env, operand, d)
        case Err(x) => Err(x)
        case Ok(v) => Computed(a.unary(op, v)))
    case Call(func, args) =>
      if !func.Name? || func.id !in FUNCTIONS then Err(Unsupported)
      else (
        match Meanings(t, a, env, args, d)
        case Err(x) => Err(x)
        case Ok(vs) => Computed(a.call(func.id, vs)))
    case OtherSyntax => Err(Unsupported)
  }

  function Meanings(t: Table, a: Arithmetic, env: Env, es: seq<Expr>, d: Domain): Result<seq<Value>>
    requires Wellformed(t)
    decreases es
  {
    if es == [] then Ok([])
    else
      match Meaning(t, a, env, es[0], d)
      case Err(x) => Err(x)
      case Ok(v) =>
        match Meanings(t, a, env, es[1..], d)
        case Err(x) => Err(x)
        case Ok(vs) => Ok([v] + vs)
  }

  predicate PowerRefused(op: BinOp, r: Value) { op.Pow? && r.Int? && (r.i > 1000 || r.i < -1000) }

  function Operate(a: Arithmetic, op: BinOp, l: Value, r: Value): Result<Value> {
    if PowerRefused(op, r) then Err(PowerTooLarge) else Computed(a.binary(op, l, r))
  }

  /**
   * An operator applies Python's to the values of both sides, in their order; an operand without a value gives its
   * error, the left one first. An integer exponent beyond 1000 either way is refused.
   */
  lemma OperatorMeans(t: Table, a: Arithmetic, env: Env, op: BinOp, left: Expr, right: Expr, d: Domain)
    requires Wellformed(t)
    ensures var m, l, r := Meaning(t, a, env, Binary(op, left, right), d), Meaning(t, a, env, left, d),
                           Meaning(t, a, env, right, d);
            && (op == OtherBinOp ==> m == Err(Unsupported))
            && (op != OtherBinOp && l.Err? ==> m == l)
            && (op != OtherBinOp && l.Ok? && r.Err? ==> m == r)
            && (op != OtherBinOp && l.Ok? && r.Ok? ==>
                  if op == Pow && r.value.Int? && !(-1000 <= r.value.i <= 1000) then m == Err(PowerTooLarge)
                  else m == match a.binary(op, l.value, r.value) case Some(v) => Ok(v) case None => Err(Raised))
  {
  }

  /** Constants, signs, and syntax that is not of the language. */
  lemma OthersMean(t: Table, a: Arithmetic, env: Env, e: Expr, op: UnaryOp, v: Value, d: Domain)
    requires Wellformed(t)
    ensures Meaning(t, a, env, Name("pi"), d) == Ok(a.pi) && Meaning(t, a, env, Constant(Number(v)), d) == Ok(v)
    ensures Meaning(t, a, env, Constant(NotANumber), d) == Meaning(t, a, env, OtherSyntax, d) == Err(Unsupported)
    ensures var m, x := Meaning(t, a, env, Unary(op, e), d), Meaning(t, a, env, e, d);
            && (op == OtherUnaryOp ==> m == Err(Unsupported))
            && (op != OtherUnaryOp && x.Err? ==> m == x)
            && (op != OtherUnaryOp && x.Ok? ==>
                  m == match a.unary(op, x.value) case Some(r) => Ok(r) case None => Err(Raised))
  {
  }

  lemma {:induction false} ArgumentsMean(t: Table, a: Arithmetic, env: Env, es: seq<Expr>, vs: seq<Value>, d: Domain)
    requires Wellformed(t) && |vs| <= |es|
    requires forall i :: 0 <= i < |vs| ==> Meaning(t, a, env, es[i], d) == Ok(vs[i])
    ensures |vs| == |es| ==> Meanings(t, a, env, es, d) == Ok(vs)
    ensures |vs| < |es| && Meaning(t, a, env, es[|vs|], d).Err? ==>
              Meanings(t, a, env, es, d) == Err(Meaning(t, a, env, es[|vs|], d).error)
    decreases es
  {
    if vs != [] {
      assert vs == [vs[0]] + vs[1..];
      ArgumentsMean(t, a, env, es[1..], vs[1..], d);
    }
  }

  /** A call applies one of seven functions, and no other, to the values of the arguments in their order. */
  lemma CallMeans(t: Table, a: Arithmetic, env: Env, f: string, args: seq<Expr>, vs: seq<Value>, d: Domain)
    requires Wellformed(t) && |vs| <= |args|
    requires forall i :: 0 <= i < |vs| ==> Meaning(t, a, env, args[i], d) == Ok(vs[i])
    ensures var m := Meaning(t, a, env, Call(Name(f), args), d);
            if f !in {"sqrt", "sin", "cos", "atan2", "min", "max", "abs"} then m == Err(Unsupported)
            else if |vs| == |args| then m == match a.call(f, vs) case Some(r) => Ok(r) case None => Err(Raised)
            else
              var failed := Meaning(t, a, env, args[|vs|], d);
              failed.Err? ==> m == failed
  {
    ArgumentsMean(t, a, env, args, vs, d);
  }

  // What a name means, in terms of the files it may come from.

  /** The name by which expressions refer to a file. */
  function FileName(d: Domain): string {
    match d case Motor => "motor" case Hardware => "hardware" case Software => "software"
  }

  /** A dotted name as the parser reads it. */
  function Written(name: Path): Expr
    requires name != []
  {
    var n := |name| - 1;
    if n == 0 then Name(name[0]) else Attribute(Written(name[..n]), name[n])
  }

  lemma {:induction false} DottedWritten(name: Path)
    requires name != []
    ensures Dotted(Written(name)) == Ok(name)
    decreases |name|
  {
    var n := |name| - 1;
    if n == 0 {
      assert name == [name[0]];
    } else {
      DottedWritten(name[..n]);
      assert name[..n] + [name[n]] == name;
    }
  }

  lemma WrittenMeans(t: Table, a: Arithmetic, env: Env, name: Path, d: Domain)
    requires Wellformed(t) && name != [] && name != ["pi"]
    ensures Meaning(t, a, env, Written(name), d) == Lookup(t, env, name, d)
  {
    DottedWritten(name);
    if |name| == 1 {
      assert name == [name[0]];
    }
  }

  function Valued(env: Env, k: Key): Result<Value> { if k in env then Ok(env[k]) else Err(Unvalued(k)) }

  predicate Qualified(name: Path)
    requires name != []
  {
    exists f: Domain :: name[0] == FileName(f)
  }

  /** A name that begins with a file means the rest in that file, wherever it is used, and nothing else. */
  lemma QualifiedNameMeans(t: Table, paths: map<Domain, seq<Path>>, a: Arithmetic, env: Env, f: Domain, rest: Path,
                           d: Domain)
    requires Indexed(t, paths)
    ensures Wellformed(t)
    ensures Meaning(t, a, env, Written([FileName(f)] + rest), d)
            == if rest in paths[f] then Valued(env, Key(f, rest)) else Err(Undefined)
  {
    IndexedIsWellformed(t, paths);
    assert FileName(f)[0] != "pi"[0] && ([FileName(f)] + rest)[0] == FileName(f);
    WrittenMeans(t, a, env, [FileName(f)] + rest, d);
    assert ([FileName(f)] + rest)[1..] == rest;
  }

  /**
   * Any other name means a path of the file it is used in, before any leaf. Failing that a bare name means the only
   * path that ends in it; with several it is ambiguous between exactly those, and everything else is undefined.
   */
  lemma LocalNameMeans(t: Table, paths: map<Domain, seq<Path>>, a: Arithmetic, env: Env, name: Path, d: Domain)
    requires Indexed(t, paths) && name != [] && name != ["pi"] && !Qualified(name)
    ensures Wellformed(t)
    ensures var m := Meaning(t, a, env, Written(name), d);
            && (name in paths[d] ==> m == Valued(env, Key(d, name)))
            && (name !in paths[d] && |name| > 1 ==> m == Err(Undefined))
            && (name !in paths[d] && |name| == 1 ==> LeafMeans(paths[d], env, name[0], d, m))
  {
    IndexedIsWellformed(t, paths);
    WrittenMeans(t, a, env, name, d);
    NotADomain(name[0]);
    if name !in paths[d] && |name| == 1 {
      var all := WithLeaf(paths[d], name[0]);
      WithLeafDistinct(paths[d], name[0]);
      assert Leaf(d, name[0]) in t.leaves <==> all != [];
      if |all| > 1 {
        assert all[0] in all && all[1] in all && all[0] != all[1];
      } else if |all| == 1 {
        assert all[0] in all;
        forall p | p in all ensures p == all[0] {
        }
      }
    }
  }

  lemma NotADomain(part: string)
    requires forall f: Domain :: part != FileName(f)
    ensures DomainOf(part).None?
  {
    assert part != FileName(Motor) && part != FileName(Hardware) && part != FileName(Software);
  }

  /** What a bare name means by the paths that end in it. */
  ghost predicate LeafMeans(paths: seq<Path>, env: Env, name: string, d: Domain, m: Result<Value>) {
    && ((forall p :: p in paths ==> !LeafIs(p, name)) ==> m == Err(Undefined))
    && (forall p :: p in paths && LeafIs(p, name) && (forall p' :: p' in paths && LeafIs(p', name) ==> p' == p) ==>
                      m == Valued(env, Key(d, p)))
    && (forall p, p' :: p in paths && p' in paths && LeafIs(p, name) && LeafIs(p', name) && p != p' ==>
                          && m.Err? && m.error.AmbiguousName? && Distinct(m.error.candidates)
                          && forall c :: c in m.error.candidates <==> c in paths && LeafIs(c, name))
  }

  /** What a symbol should be worth when the symbols have the values of env. */
  function Demand(t: Table, a: Arithmetic, env: Env, k: Key): Result<Value>
    requires Wellformed(t) && k in t.symbols
  {
    var s := t.symbols[k];
    match s.raw
    case Plain(v) => Ok(OfLiteral(v, s.ctype))
    case Formula(None) => Err(SyntaxError)
    case Formula(Some(e)) =>
      match Meaning(t, a, env, e, k.domain)
      case Err(x) => Err(x)
      case Ok(v) => Coerce(v, s)
  }

  /** An assignment of values to all symbols that meets every definition. */
  ghost predicate Solves(t: Table, a: Arithmetic, env: Env)
    requires Wellformed(t)
  {
    env.Keys == t.symbols.Keys && forall k :: k in t.symbols ==> Demand(t, a, env, k) == Ok(env[k])
  }

  // Dependencies.

  function RefersTo(t: Table, name: Path, d: Domain): set<Key>
    requires Wellformed(t) && name != []
  {
    if Resolve(t, name, d).Ok? then {Resolve(t, name, d).value} else {}
  }

  function Refs(t: Table, e: Expr, d: Domain): (r: set<Key>)
    requires Wellformed(t)
    ensures forall k :: k in r ==> k in t.symbols
    decreases e
  {
    match e
    case Name(id) => if id == "pi" then {} else RefersTo(t, [id], d)
    case Attribute(_, _) => (
      match Dotted(e)
      case Err(_) => {}
      case Ok(name) => RefersTo(t, name, d))
    case Binary(_, left, right) => Refs(t, left, d) + Refs(t, right, d)
    case Unary(_, operand) => Refs(t, operand, d)
    case Call(_, args) => AllRefs(t, args, d)
    case _ => {}
  }

  function AllRefs(t: Table, es: seq<Expr>, d: Domain): (r: set<Key>)
    requires Wellformed(t)
    ensures forall k :: k in r ==> k in t.symbols
    decreases es
  {
    if es == [] then {} else Refs(t, es[0], d) + AllRefs(t, es[1..], d)
  }

  function Deps(t: Table, k: Key): (r: set<Key>)
    requires Wellformed(t) && k in t.symbols
    ensures forall k' :: k' in r ==> k' in t.symbols
  {
    match t.symbols[k].raw
    case Formula(Some(e)) => Refs(t, e, k.domain)
    case _ => {}
  }

  predicate Edge(t: Table, k: Key, k': Key)
    requires Wellformed(t)
  {
    k in t.symbols && k' in Deps(t, k)
  }

  ghost predicate IsPath(t: Table, p: seq<Key>)
    requires Wellformed(t)
  {
    forall i :: 0 <= i < |p| - 1 ==> Edge(t, p[i], p[i + 1])
  }

  ghost predicate IsCycle(t: Table, p: seq<Key>)
    requires Wellformed(t)
  {
    |p| >= 2 && IsPath(t, p) && p[0] == p[|p| - 1]
  }

  ghost predicate Acyclic(t: Table)
    requires Wellformed(t)
  {
    forall p: seq<Key> :: !IsCycle(t, p)
  }

  // Only the values of the references matter.

  ghost predicate Agree(env: Env, env': Env, ks: set<Key>) {
    forall k :: k in ks ==> k in env && k in env' && env[k] == env'[k]
  }

  lemma {:induction false} MeaningDependsOnRefs(t: Table, a: Arithmetic, env: Env, env': Env, e: Expr, d: Domain)
    requires Wellformed(t) && Agree(env, env', Refs(t, e, d))
    ensures Meaning(t, a, env, e, d) == Meaning(t, a, env', e, d)
    decreases e
  {
    match e
    case Binary(_, left, right) =>
      MeaningDependsOnRefs(t, a, env, env', left, d);
      MeaningDependsOnRefs(t, a, env, env', right, d);
    case Unary(_, operand) => MeaningDependsOnRefs(t, a, env, env', operand, d);
    case Call(_, args) => MeaningsDependOnRefs(t, a, env, env', args, d);
    case _ =>
  }

  lemma {:induction false} MeaningsDependOnRefs(t: Table, a: Arithmetic, env: Env, env': Env, es: seq<Expr>, d: Domain)
    requires Wellformed(t) && Agree(env, env', AllRefs(t, es, d))
    ensures Meanings(t, a, env, es, d) == Meanings(t, a, env', es, d)
    decreases es
  {
    if es != [] {
      MeaningDependsOnRefs(t, a, env, env', es[0], d);
      MeaningsDependOnRefs(t, a, env, env', es[1..], d);
    }
  }

  /** More values change no meaning that was already settled. */
  lemma {:induction false} MeaningExtends(t: Table, a: Arithmetic, env: Env, env': Env, e: Expr, d: Domain)
    requires Wellformed(t) && Agree(env, env', env.Keys)
    requires !(Meaning(t, a, env, e, d).Err? && Meaning(t, a, env, e, d).error.Unvalued?)
    ensures Meaning(t, a, env', e, d) == Meaning(t, a, env, e, d)
    decreases e
  {
    match e
    case Binary(op, left, right) =>
      if !op.OtherBinOp? {
        MeaningExtends(t, a, env, env', left, d);
        if Meaning(t, a, env, left, d).Ok? {
          MeaningExtends(t, a, env, env', right, d);
        }
      }
    case Unary(op, operand) =>
      if !op.OtherUnaryOp? {
        MeaningExtends(t, a, env, env', operand, d);
      }
    case Call(func, args) =>
      if func.Name? && func.id in FUNCTIONS {
        MeaningsExtend(t, a, env, env', args, d);
      }
    case _ =>
  }

  lemma {:induction false} MeaningsExtend(t: Table, a: Arithmetic, env: Env, env': Env, es: seq<Expr>, d: Domain)
    requires Wellformed(t) && Agree(env, env', env.Keys)
    requires !(Meanings(t, a, env, es, d).Err? && Meanings(t, a, env, es, d).error.Unvalued?)
    ensures Meanings(t, a, env', es, d) == Meanings(t, a, env, es, d)
    decreases es
  {
    if es != [] {
      MeaningExtends(t, a, env, env', es[0], d);
      if Meaning(t, a, env, es[0], d).Ok? {
        MeaningsExtend(t, a, env, env', es[1..], d);
      }
    }
  }

  /** An expression with a value has a value for every reference. */
  lemma {:induction false} MeaningNeedsRefs(t: Table, a: Arithmetic, env: Env, e: Expr, d: Domain)
    requires Wellformed(t) && Meaning(t, a, env, e, d).Ok?
    ensures Refs(t, e, d) <= env.Keys
    decreases e
  {
    match e
    case Binary(_, left, right) =>
      MeaningNeedsRefs(t, a, env, left, d);
      MeaningNeedsRefs(t, a, env, right, d);
    case Unary(_, operand) => MeaningNeedsRefs(t, a, env, operand, d);
    case Call(_, args) => MeaningsNeedRefs(t, a, env, args, d);
    case _ =>
  }

  lemma {:induction false} MeaningsNeedRefs(t: Table, a: Arithmetic, env: Env, es: seq<Expr>, d: Domain)
    requires Wellformed(t) && Meanings(t, a, env, es, d).Ok?
    ensures AllRefs(t, es, d) <= env.Keys
    decreases es
  {
    if es != [] {
      MeaningNeedsRefs(t, a, env, es[0], d);
      MeaningsNeedRefs(t, a, env, es[1..], d);
    }
  }
}
