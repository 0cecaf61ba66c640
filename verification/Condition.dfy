/** Rule conditions: the AST allowlist check, and evaluation against the latest values. */
module Condition {
  import opened Prelude
  import opened Catalog

  const MAX_CONDITION_CHARS := 512
  const MAX_CONDITION_DEPTH := 24

  const ALLOWED_OPERATORS: seq<string> := [
    "_&&_", "_||_", "!_", "-_", "_==_", "_!=_", "_<_", "_<=_", "_>_", "_>=_", "_+_", "_-_", "_*_",
    "_/_", "_%_", "_?_:_"]

  predicate OneOf(x: string, list: seq<string>) {
    list != [] && (x == list[0] || OneOf(x, list[1..]))
  }

  predicate IsAllowedOperator(func: string) { OneOf(func, ALLOWED_OPERATORS) }

  datatype Literal =
    | LitBool(b: bool) | LitDouble(r: real) | LitInt(i: int) | LitUInt(n: nat) | LitString(s: string)
    | LitBytes(bytes: seq<byte>) | LitNull

  /** A parsed condition. A macro is kept without its parts: it binds names that are not signals. */
  datatype Expr =
    | Ident(name: string)
    | Lit(lit: Literal)
    | Call(func: string, target: Option<Expr>, args: seq<Expr>)
    | Select(operand: Expr)
    | Comprehension
    | Collection(items: seq<Expr>)
    | Unspecified

  datatype AstError =
    | TooDeep | UnknownSignal(name: string) | BadLiteral | NotAllowed(func: string)
    | FieldAccess | Macro | CollectionLiteral | Unsupported

  // ---- sorted sets of names ---------------------------------------------

  /** Order of `str`. */
  predicate StrLess(a: string, b: string) {
    b != [] && (a == [] || a[0] < b[0] || (a[0] == b[0] && StrLess(a[1..], b[1..])))
  }

  lemma {:induction false} StrLessTotal(a: string, b: string)
    ensures StrLess(a, b) || a == b || StrLess(b, a)
    decreases |a|
  {
    if a != [] && b != [] && a[0] == b[0] {
      StrLessTotal(a[1..], b[1..]);
      assert a == [a[0]] + a[1..] && b == [b[0]] + b[1..];
    }
  }

  lemma {:induction false} StrLessIrreflexive(a: string)
    ensures !StrLess(a, a)
  {
    if a != [] {
      StrLessIrreflexive(a[1..]);
    }
  }

  lemma {:induction false} StrLessTransitive(a: string, b: string, c: string)
    requires StrLess(a, b) && StrLess(b, c)
    ensures StrLess(a, c)
    decreases |a|
  {
    if a != [] && a[0] == b[0] && b[0] == c[0] {
      StrLessTransitive(a[1..], b[1..], c[1..]);
    }
  }

  predicate StrictlySorted(s: seq<string>) {
    forall i, j :: 0 <= i < j < |s| ==> StrLess(s[i], s[j])
  }

  /** `BTreeSet::insert`. */
  function Insert(s: seq<string>, x: string): seq<string> {
    if s == [] then [x]
    else if x == s[0] then s
    else if StrLess(x, s[0]) then [x] + s
    else [s[0]] + Insert(s[1..], x)
  }

  lemma {:induction false} InsertMembers(s: seq<string>, x: string, y: string)
    ensures y in Insert(s, x) <==> y in s || y == x
  {
    if s != [] {
      InsertMembers(s[1..], x, y);
    }
  }

  lemma {:induction false} InsertSorted(s: seq<string>, x: string)
    requires StrictlySorted(s)
    ensures StrictlySorted(Insert(s, x))
  {
    if s != [] && x != s[0] {
      if StrLess(x, s[0]) {
        forall j | 0 <= j < |s| ensures StrLess(x, s[j]) {
          if j > 0 {
            StrLessTransitive(x, s[0], s[j]);
          }
        }
      } else {
        StrLessTotal(x, s[0]);
        InsertSorted(s[1..], x);
        var t := Insert(s[1..], x);
        forall j | 0 <= j < |t| ensures StrLess(s[0], t[j]) {
          InsertMembers(s[1..], x, t[j]);
          assert t[j] in t;
        }
      }
    }
  }

  /** A strictly sorted sequence is determined by its members. */
  lemma {:induction false} SortedUnique(s: seq<string>, t: seq<string>)
    requires StrictlySorted(s) && StrictlySorted(t)
    requires forall x :: x in s <==> x in t
    ensures s == t
    decreases |s|
  {
    if t != [] {
      assert t[0] in s;
    }
    if s != [] {
      assert s[0] in t;
      assert t[0] in s;
      var i :| 0 <= i < |t| && t[i] == s[0];
      var j :| 0 <= j < |s| && s[j] == t[0];
      if i > 0 && j > 0 {
        StrLessTransitive(s[0], t[0], s[0]);
        StrLessIrreflexive(s[0]);
      }
      assert s[0] == t[0];
      forall x
        ensures x in s[1..] <==> x in t[1..]
      {
        StrLessIrreflexive(s[0]);
        assert x in s <==> x == s[0] || x in s[1..];
        assert x in t <==> x == t[0] || x in t[1..];
      }
      SortedUnique(s[1..], t[1..]);
    }
  }

  // ---- the check, recursively -------------------------------------------

  /** What is wrong with one node at `depth`, its children aside. */
  function NodeError(e: Expr, depth: nat, cat: SignalCatalog): Option<AstError> {
    if depth > MAX_CONDITION_DEPTH then Some(TooDeep)
    else
      match e
      case Ident(name) => if cat.ByName(name).None? then Some(UnknownSignal(name)) else None
      case Lit(lit) => if lit.LitBytes? || lit.LitNull? then Some(BadLiteral) else None
      case Call(func, target, _) =>
        if target.Some? || !IsAllowedOperator(func) then Some(NotAllowed(func)) else None
      case Select(_) => Some(FieldAccess)
      case Comprehension => Some(Macro)
      case Collection(_) => Some(CollectionLiteral)
      case Unspecified => Some(Unsupported)
  }

  /** The first error of a tree, node before arguments and arguments from the right. */
  function FirstError(e: Expr, depth: nat, cat: SignalCatalog): Option<AstError>
    decreases e, 1
  {
    var here := NodeError(e, depth, cat);
    if here.Some? || !e.Call? then here else FirstErrorIn(e.args, depth + 1, cat)
  }

  function FirstErrorIn(es: seq<Expr>, depth: nat, cat: SignalCatalog): Option<AstError>
    decreases es, 0
  {
    if es == [] then None
    else
      var last := FirstError(es[|es| - 1], depth, cat);
      if last.Some? then last else FirstErrorIn(es[..|es| - 1], depth, cat)
  }

  /** Whether a tree has a node that is not allowed whatever its depth. */
  predicate Allowed(e: Expr, cat: SignalCatalog)
    decreases e
  {
    match e
    case Ident(name) => cat.ByName(name).Some?
    case Lit(lit) => !lit.LitBytes? && !lit.LitNull?
    case Call(func, target, args) =>
      target.None? && IsAllowedOperator(func) && forall a :: a in args ==> Allowed(a, cat)
    case _ => false
  }

  /** Levels of a tree, counted through the arguments of calls. */
  function Height(e: Expr): nat
    decreases e, 1
  {
    if e.Call? then 1 + HeightOf(e.args) else 1
  }

  function HeightOf(es: seq<Expr>): (h: nat)
    ensures forall a :: a in es ==> Height(a) <= h
    ensures es != [] ==> exists a :: a in es && Height(a) == h
    decreases es, 0
  {
    if es == [] then 0
    else
      var last, init := Height(es[|es| - 1]), HeightOf(es[..|es| - 1]);
      assert es[|es| - 1] in es;
      assert forall a :: a in es ==> a in es[..|es| - 1] || a == es[|es| - 1];
      if last >= init then last else init
  }

  /** Identifiers of a tree, through the arguments of calls, sorted and once each. */
  function Names(e: Expr): seq<string>
    decreases e, 1
  {
    match e
    case Ident(name) => [name]
    case Call(_, _, args) => NamesOf(args)
    case _ => []
  }

  function NamesOf(es: seq<Expr>): seq<string>
    decreases es, 0
  {
    if es == [] then [] else InsertAll(NamesOf(es[..|es| - 1]), Names(es[|es| - 1]))
  }

  function InsertAll(s: seq<string>, xs: seq<string>): seq<string> {
    if xs == [] then s else Insert(InsertAll(s, xs[..|xs| - 1]), xs[|xs| - 1])
  }

  lemma {:induction false} InsertAllSorted(s: seq<string>, xs: seq<string>)
    requires StrictlySorted(s)
    ensures StrictlySorted(InsertAll(s, xs))
    ensures forall y :: y in InsertAll(s, xs) <==> y in s || y in xs
  {
    if xs != [] {
      InsertAllSorted(s, xs[..|xs| - 1]);
      InsertSorted(InsertAll(s, xs[..|xs| - 1]), xs[|xs| - 1]);
      forall y
        ensures y in InsertAll(s, xs) <==> y in s || y in xs
      {
        InsertMembers(InsertAll(s, xs[..|xs| - 1]), xs[|xs| - 1], y);
        assert y in xs <==> y in xs[..|xs| - 1] || y == xs[|xs| - 1];
      }
    }
  }

  lemma {:induction false} NamesSorted(e: Expr)
    ensures StrictlySorted(Names(e))
    decreases e, 1
  {
    if e.Call? {
      NamesOfSorted(e.args);
    }
  }

  lemma {:induction false} NamesOfSorted(es: seq<Expr>)
    ensures StrictlySorted(NamesOf(es))
    ensures forall x :: x in NamesOf(es) <==> exists a :: a in es && x in Names(a)
    decreases es, 0
  {
    if es != [] {
      var init, last := es[..|es| - 1], es[|es| - 1];
      NamesOfSorted(init);
      NamesSorted(last);
      InsertAllSorted(NamesOf(init), Names(last));
      forall x
        ensures x in NamesOf(es) <==> exists a :: a in es && x in Names(a)
      {
        assert x in NamesOf(es) <==> x in NamesOf(init) || x in Names(last);
        assert last in es && forall a :: a in es <==> a in init || a == last;
      }
    }
  }

  lemma {:induction false} FirstErrorNoneIff(e: Expr, depth: nat, cat: SignalCatalog)
    requires depth >= 1
    ensures FirstError(e, depth, cat).None? <==> Allowed(e, cat) && depth + Height(e) - 1 <= MAX_CONDITION_DEPTH
    decreases e, 1
  {
    if e.Call? && NodeError(e, depth, cat).None? {
      FirstErrorInNoneIff(e.args, depth + 1, cat);
    }
  }

  lemma {:induction false} FirstErrorInNoneIff(es: seq<Expr>, depth: nat, cat: SignalCatalog)
    requires depth >= 1
    ensures FirstErrorIn(es, depth, cat).None? <==>
              (forall a :: a in es ==> Allowed(a, cat))
              && (es == [] || depth + HeightOf(es) - 1 <= MAX_CONDITION_DEPTH)
    decreases es, 0
  {
    if es != [] {
      var init, last := es[..|es| - 1], es[|es| - 1];
      FirstErrorNoneIff(last, depth, cat);
      FirstErrorInNoneIff(init, depth, cat);
      assert last in es && forall a :: a in es <==> a in init || a == last;
    }
  }

  // ---- the check, iteratively -------------------------------------------

  function Size(e: Expr): (n: nat)
    ensures n >= 1
    decreases e, 1
  {
    if e.Call? then 1 + SizeOf(e.args) else 1
  }

  function SizeOf(es: seq<Expr>): nat
    decreases es, 0
  {
    if es == [] then 0 else SizeOf(es[..|es| - 1]) + Size(es[|es| - 1])
  }

  type Stack = seq<(Expr, nat)>

  /** Nodes left to visit: the loop's termination measure. */
  function StackSize(stack: Stack): nat {
    if stack == [] then 0 else StackSize(stack[..|stack| - 1]) + Size(stack[|stack| - 1].0)
  }

  function StackError(stack: Stack, cat: SignalCatalog): Option<AstError> {
    if stack == [] then None
    else
      var top := FirstError(stack[|stack| - 1].0, stack[|stack| - 1].1, cat);
      if top.Some? then top else StackError(stack[..|stack| - 1], cat)
  }

  ghost predicate OnStack(stack: Stack, x: string) {
    exists i :: 0 <= i < |stack| && x in Names(stack[i].0)
  }

  function Push(stack: Stack, args: seq<Expr>, depth: nat): Stack {
    stack + seq(|args|, i requires 0 <= i < |args| => (args[i], depth))
  }

  lemma PushSnoc(stack: Stack, args: seq<Expr>, depth: nat)
    requires args != []
    ensures var pushed, n := Push(stack, args, depth), |args| - 1;
            && |pushed| == |stack| + |args|
            && pushed[..|pushed| - 1] == Push(stack, args[..n], depth)
            && pushed[|pushed| - 1] == (args[n], depth)
  {
  }

  lemma {:induction false} PushSize(stack: Stack, args: seq<Expr>, depth: nat)
    ensures StackSize(Push(stack, args, depth)) == StackSize(stack) + SizeOf(args)
  {
    if args == [] {
      assert Push(stack, args, depth) == stack;
    } else {
      PushSize(stack, args[..|args| - 1], depth);
      PushSnoc(stack, args, depth);
    }
  }

  lemma {:induction false} PushError(stack: Stack, args: seq<Expr>, depth: nat, cat: SignalCatalog)
    ensures StackError(Push(stack, args, depth), cat) ==
            if FirstErrorIn(args, depth, cat).Some? then FirstErrorIn(args, depth, cat) else StackError(stack, cat)
  {
    if args == [] {
      assert Push(stack, args, depth) == stack;
    } else {
      PushError(stack, args[..|args| - 1], depth, cat);
      PushSnoc(stack, args, depth);
    }
  }

  /** Popping a call and pushing its arguments leaves the same names to visit. */
  lemma PushNames(stack: Stack, e: Expr, depth: nat, x: string)
    requires e.Call?
    ensures OnStack(Push(stack, e.args, depth), x) <==> OnStack(stack, x) || x in Names(e)
  {
    NamesOfSorted(e.args);
    var pushed := Push(stack, e.args, depth);
    if OnStack(stack, x) {
      var i :| 0 <= i < |stack| && x in Names(stack[i].0);
      assert pushed[i] == stack[i];
    }
    if x in Names(e) {
      var a :| a in e.args && x in Names(a);
      var i :| 0 <= i < |e.args| && e.args[i] == a;
      assert pushed[|stack| + i] == (a, depth);
    }
    if OnStack(pushed, x) {
      var i :| 0 <= i < |pushed| && x in Names(pushed[i].0);
      if i < |stack| {
        assert x in Names(stack[i].0);
      } else {
        assert e.args[i - |stack|] in e.args;
      }
    }
  }

  function CheckSpec(root: Expr, cat: SignalCatalog): Result<seq<string>, AstError> {
    match FirstError(root, 1, cat)
    case Some(e) => Err(e)
    case None => Ok(Names(root))
  }

  lemma PopNames(stack: Stack, x: string)
    requires stack != []
    ensures OnStack(stack, x) <==> OnStack(stack[..|stack| - 1], x) || x in Names(stack[|stack| - 1].0)
  {
    var init := stack[..|stack| - 1];
    if OnStack(init, x) {
      var i :| 0 <= i < |init| && x in Names(init[i].0);
      assert stack[i] == init[i];
    }
    if OnStack(stack, x) && x !in Names(stack[|stack| - 1].0) {
      var i :| 0 <= i < |stack| && x in Names(stack[i].0);
      assert init[i] == stack[i];
    }
  }

  /** The names of the tree are those collected so far and those on the stack. */
  ghost predicate Visiting(root: Expr, names: seq<string>, stack: Stack) {
    forall x :: x in Names(root) <==> x in names || OnStack(stack, x)
  }

  lemma VisitStart(root: Expr)
    ensures Visiting(root, [], [(root, 1)])
  {
    var stack: Stack := [(root, 1)];
    assert stack[0].0 == root;
  }

  /** A popped identifier is collected; any other leaf adds nothing. */
  lemma VisitLeaf(root: Expr, names: seq<string>, stack: Stack, node: Expr, names': seq<string>)
    requires stack != [] && node == stack[|stack| - 1].0 && !node.Call? && Visiting(root, names, stack)
    requires names' == if node.Ident? then Insert(names, node.name) else names
    ensures Visiting(root, names', stack[..|stack| - 1])
  {
    forall x
      ensures x in Names(root) <==> x in names' || OnStack(stack[..|stack| - 1], x)
    {
      PopNames(stack, x);
      if node.Ident? {
        InsertMembers(names, node.name, x);
      }
    }
  }

  /** A popped call is replaced by its arguments. */
  lemma VisitCall(root: Expr, names: seq<string>, stack: Stack, node: Expr, depth: nat)
    requires stack != [] && node == stack[|stack| - 1].0 && node.Call? && Visiting(root, names, stack)
    ensures Visiting(root, names, Push(stack[..|stack| - 1], node.args, depth))
  {
    forall x
      ensures x in Names(root) <==> x in names || OnStack(Push(stack[..|stack| - 1], node.args, depth), x)
    {
      PopNames(stack, x);
      PushNames(stack[..|stack| - 1], node, depth, x);
    }
  }

  lemma VisitedAll(root: Expr, names: seq<string>)
    requires StrictlySorted(names) && Visiting(root, names, [])
    ensures names == Names(root)
  {
    NamesSorted(root);
    forall x ensures x in names <==> x in Names(root) {
    }
    SortedUnique(names, Names(root));
  }

  /** Visits the nodes from an explicit stack, the last argument of a call first; collects the names, sorted. */
  method CheckAst(root: Expr, cat: SignalCatalog) returns (r: Result<seq<string>, AstError>)
    ensures r == CheckSpec(root, cat)
  {
    var names: seq<string> := [];
    var stack: Stack := [(root, 1)];
    assert stack[..0] == [];
    VisitStart(root);
    while stack != []
      invariant StrictlySorted(names)
      invariant StackError(stack, cat) == FirstError(root, 1, cat)
      invariant Visiting(root, names, stack)
      decreases StackSize(stack)
    {
      var (node, depth) := stack[|stack| - 1];
      ghost var before, names0 := stack, names;
      stack := stack[..|stack| - 1];
      var error := NodeError(node, depth, cat);
      if error.Some? {
        return Err(error.value);
      }
      if node.Ident? {
        names := Insert(names, node.name);
        InsertSorted(names0, node.name);
      }
      if node.Call? {
        PushSize(stack, node.args, depth + 1);
        PushError(stack, node.args, depth + 1, cat);
        VisitCall(root, names, before, node, depth + 1);
        stack := Push(stack, node.args, depth + 1);
      } else {
        VisitLeaf(root, names0, before, node, names);
      }
    }
    VisitedAll(root, names);
    r := Ok(names);
  }

  /**
   * The check accepts exactly the trees built from allowed nodes, at most 24 levels high, and
   * then returns the sorted set of their identifiers, all of them catalog signals.
   */
  lemma CheckAcceptsExactly(root: Expr, cat: SignalCatalog)
    ensures CheckSpec(root, cat).Ok? <==> Allowed(root, cat) && Height(root) <= MAX_CONDITION_DEPTH
    ensures CheckSpec(root, cat).Ok? ==> StrictlySorted(CheckSpec(root, cat).value)
    ensures CheckSpec(root, cat).Ok? ==>
              forall x :: x in CheckSpec(root, cat).value <==> Occurs(x, root)
    ensures CheckSpec(root, cat).Ok? ==>
              forall x :: x in CheckSpec(root, cat).value ==> cat.ByName(x).Some?
  {
    FirstErrorNoneIff(root, 1, cat);
    NamesSorted(root);
    forall x
      ensures x in Names(root) <==> Occurs(x, root)
      ensures Allowed(root, cat) && Occurs(x, root) ==> cat.ByName(x).Some?
    {
      NamesOccur(root, x);
      OccursKnown(root, x, cat);
    }
  }

  /** `x` is the name of an identifier node of the tree, through the arguments of calls. */
  predicate Occurs(x: string, e: Expr)
    decreases e
  {
    match e
    case Ident(name) => name == x
    case Call(_, _, args) => exists a :: a in args && Occurs(x, a)
    case _ => false
  }

  lemma {:induction false} NamesOccur(e: Expr, x: string)
    ensures x in Names(e) <==> Occurs(x, e)
    decreases e
  {
    if e.Call? {
      NamesOfSorted(e.args);
      forall a | a in e.args
        ensures x in Names(a) <==> Occurs(x, a)
      {
        NamesOccur(a, x);
      }
    }
  }

  lemma {:induction false} OccursKnown(e: Expr, x: string, cat: SignalCatalog)
    ensures Allowed(e, cat) && Occurs(x, e) ==> cat.ByName(x).Some?
    decreases e
  {
    if e.Call? {
      forall a | a in e.args
        ensures Allowed(a, cat) && Occurs(x, a) ==> cat.ByName(x).Some?
      {
        OccursKnown(a, x, cat);
      }
    }
  }

  // ---- compilation and evaluation ---------------------------------------

  datatype ConditionError = TooLong(chars: nat) | EmptySource | Syntax(message: string) | Ast(error: AstError)

  /** A condition ready to run: its tree, and the signals it needs values for. */
  datatype CompiledCondition = CompiledCondition(program: Expr, signals: seq<string>)

  /** The expression parser, which is not part of this model. */
  type Parser = string -> Result<Expr, string>

  function ConditionSpec(parse: Parser, source: string, cat: SignalCatalog): Result<CompiledCondition, ConditionError> {
    if |source| > MAX_CONDITION_CHARS then Err(TooLong(|source|))
    else if IsBlank(source) then Err(EmptySource)
    else
      match parse(source)
      case Err(m) => Err(Syntax(m))
      case Ok(program) =>
        match CheckSpec(program, cat)
        case Err(e) => Err(Ast(e))
        case Ok(signals) => Ok(CompiledCondition(program, signals))
  }

  // ---- every fault of a condition ---------------------------------------

  function AstFaultIf(b: bool, e: AstError): seq<AstError> {
    if b then [e] else []
  }

  /** Everything wrong with one node, its children aside: its depth, and what kind of node it is. */
  function NodeFaults(e: Expr, depth: nat, cat: SignalCatalog): seq<AstError> {
    AstFaultIf(depth > MAX_CONDITION_DEPTH, TooDeep)
    + match e
      case Ident(name) => AstFaultIf(cat.ByName(name).None?, UnknownSignal(name))
      case Lit(lit) => AstFaultIf(lit.LitBytes? || lit.LitNull?, BadLiteral)
      case Call(func, target, _) => AstFaultIf(target.Some? || !IsAllowedOperator(func), NotAllowed(func))
      case Select(_) => [FieldAccess]
      case Comprehension => [Macro]
      case Collection(_) => [CollectionLiteral]
      case Unspecified => [Unsupported]
  }

  /** Everything wrong with every node of a tree, below faulty nodes too; arguments from the right. */
  function TreeFaults(e: Expr, depth: nat, cat: SignalCatalog): seq<AstError>
    decreases e, 1
  {
    NodeFaults(e, depth, cat)
    + match e
      case Call(_, target, args) =>
        ForestFaults(args, depth + 1, cat) + (if target.Some? then TreeFaults(target.value, depth + 1, cat) else [])
      case Select(operand) => TreeFaults(operand, depth + 1, cat)
      case Collection(items) => ForestFaults(items, depth + 1, cat)
      case _ => []
  }

  function ForestFaults(es: seq<Expr>, depth: nat, cat: SignalCatalog): seq<AstError>
    decreases es, 0
  {
    if es == [] then []
    else TreeFaults(es[|es| - 1], depth, cat) + ForestFaults(es[..|es| - 1], depth, cat)
  }

  /** The first of a list, if it has one. */
  function First<T>(s: seq<T>): Option<T> {
    if s == [] then None else Some(s[0])
  }

  lemma FirstOfConcat<T>(a: seq<T>, b: seq<T>)
    ensures First(a + b) == if a == [] then First(b) else First(a)
  {
  }

  lemma NodeErrorIsFirst(e: Expr, depth: nat, cat: SignalCatalog)
    ensures NodeError(e, depth, cat) == First(NodeFaults(e, depth, cat))
  {
  }

  /** The check stops at the first of all faults. */
  lemma {:induction false} FirstErrorIsFirst(e: Expr, depth: nat, cat: SignalCatalog)
    ensures FirstError(e, depth, cat) == First(TreeFaults(e, depth, cat))
    decreases e, 1
  {
    NodeErrorIsFirst(e, depth, cat);
    if e.Call? && NodeFaults(e, depth, cat) == [] {
      FirstErrorInIsFirst(e.args, depth + 1, cat);
    }
  }

  lemma {:induction false} FirstErrorInIsFirst(es: seq<Expr>, depth: nat, cat: SignalCatalog)
    ensures FirstErrorIn(es, depth, cat) == First(ForestFaults(es, depth, cat))
    decreases es, 0
  {
    if es != [] {
      var last, init := es[|es| - 1], es[..|es| - 1];
      FirstErrorIsFirst(last, depth, cat);
      FirstErrorInIsFirst(init, depth, cat);
      FirstOfConcat(TreeFaults(last, depth, cat), ForestFaults(init, depth, cat));
    }
  }

  /** A list without its repetitions. */
  function Distinct<T(==)>(s: seq<T>): seq<T> {
    if s == [] then []
    else
      var init, last := Distinct(s[..|s| - 1]), s[|s| - 1];
      if last in init then init else init + [last]
  }

  lemma {:induction false} DistinctExact<T>(s: seq<T>)
    ensures First(Distinct(s)) == First(s)
    ensures forall x :: x in Distinct(s) <==> x in s
    ensures forall i, j :: 0 <= i < j < |Distinct(s)| ==> Distinct(s)[i] != Distinct(s)[j]
  {
    if s != [] {
      DistinctExact(s[..|s| - 1]);
      assert s == s[..|s| - 1] + [s[|s| - 1]];
    }
  }

  function AsConditionErrors(faults: seq<AstError>): seq<ConditionError> {
    seq(|faults|, i requires 0 <= i < |faults| => Ast(faults[i]))
  }

  /**
   * Everything wrong with a source, each requirement by itself: its length, that it is not
   * blank, its syntax, and every fault of its tree. A blank source has no syntax to judge,
   * and a fault that several nodes commit counts once.
   */
  function SourceFaults(parse: Parser, source: string, cat: SignalCatalog): seq<ConditionError> {
    (if |source| > MAX_CONDITION_CHARS then [TooLong(|source|)] else [])
    + if IsBlank(source) then [EmptySource]
      else
        match parse(source)
        case Err(m) => [Syntax(m)]
        case Ok(program) => AsConditionErrors(Distinct(TreeFaults(program, 1, cat)))
  }

  /** Compilation reports the first fault of the source, and succeeds exactly when there is none. */
  lemma ConditionReportsFirst(parse: Parser, source: string, cat: SignalCatalog)
    ensures var r, faults := ConditionSpec(parse, source, cat), SourceFaults(parse, source, cat);
            if faults == [] then r.Ok? else r == Err(faults[0])
  {
    if parse(source).Ok? {
      FirstErrorIsFirst(parse(source).value, 1, cat);
      DistinctExact(TreeFaults(parse(source).value, 1, cat));
    }
  }

  /** A source text the condition language accepts: bounded, not blank, and parsed to an allowed, bounded tree. */
  predicate AcceptedSource(parse: Parser, source: string, cat: SignalCatalog) {
    && |source| <= MAX_CONDITION_CHARS && !IsBlank(source)
    && parse(source).Ok?
    && Allowed(parse(source).value, cat) && Height(parse(source).value) <= MAX_CONDITION_DEPTH
  }

  /** `c` runs the parsed tree, and lists exactly the identifiers that occur in it, sorted and once each. */
  ghost predicate CompiledOf(parse: Parser, source: string, c: CompiledCondition) {
    && parse(source) == Ok(c.program)
    && StrictlySorted(c.signals)
    && forall x :: x in c.signals <==> Occurs(x, c.program)
  }

  /** Compilation succeeds exactly on accepted sources, and an error says which requirement failed. */
  lemma ConditionAcceptsExactly(parse: Parser, source: string, cat: SignalCatalog)
    ensures var r := ConditionSpec(parse, source, cat);
            && (r.Ok? <==> AcceptedSource(parse, source, cat))
            && (r.Ok? ==> CompiledOf(parse, source, r.value))
            && (r.Err? ==>
                  match r.error
                  case TooLong(chars) => chars == |source| > MAX_CONDITION_CHARS
                  case EmptySource => IsBlank(source)
                  case Syntax(m) => parse(source) == Err(m)
                  case Ast(_) => parse(source).Ok? && !(Allowed(parse(source).value, cat)
                                                        && Height(parse(source).value) <= MAX_CONDITION_DEPTH))
  {
    if parse(source).Ok? {
      CheckAcceptsExactly(parse(source).value, cat);
    }
  }

  /** The compiled condition is determined by its source. */
  lemma CompiledUnique(parse: Parser, source: string, a: CompiledCondition, b: CompiledCondition)
    requires CompiledOf(parse, source, a) && CompiledOf(parse, source, b)
    ensures a == b
  {
    SortedUnique(a.signals, b.signals);
  }

  /** Checks the source in stages: its length, then blank text, then its syntax, then its tree. */
  method CompileCondition(parse: Parser, source: string, cat: SignalCatalog)
    returns (r: Result<CompiledCondition, ConditionError>)
    ensures r.Ok? <==> AcceptedSource(parse, source, cat)
    ensures r.Ok? ==> CompiledOf(parse, source, r.value)
    ensures r == ConditionSpec(parse, source, cat)
  {
    ConditionAcceptsExactly(parse, source, cat);
    if |source| > MAX_CONDITION_CHARS {
      return Err(TooLong(|source|));
    }
    if IsBlank(source) {
      return Err(EmptySource);
    }
    var program := parse(source);
    if program.Err? {
      return Err(Syntax(program.error));
    }
    var signals := CheckAst(program.value, cat);
    r := if signals.Err? then Err(Ast(signals.error)) else Ok(CompiledCondition(program.value, signals.value));
  }

  /** A value of the expression language. */
  datatype CelValue = CelBool(b: bool) | CelFloat(r: real) | CelString(s: string) | CelOther(debug: string)

  datatype EvalError = Execution(message: string) | NotBool(value: CelValue)

  /** The expression interpreter, which is not part of this model. */
  type Interpreter = (Expr, map<string, CelValue>) -> Result<CelValue, string>

  function ToCel(v: SignalValue): CelValue {
    match v
    case Bool(b) => CelBool(b)
    case Num(n) => CelFloat(n)
    case Enum(text) => CelString(text)
  }

  function Bindings(signals: seq<string>, values: map<string, SignalValue>): map<string, CelValue> {
    map name | name in signals && name in values :: ToCel(values[name])
  }

  /** A condition's verdict: false while a referenced signal has no value, otherwise what the program returns. */
  function Evaluate(exec: Interpreter, c: CompiledCondition, values: map<string, SignalValue>)
    : Result<bool, EvalError>
  {
    if exists name :: name in c.signals && name !in values then Ok(false)
    else
      match exec(c.program, Bindings(c.signals, values))
      case Ok(v) => if v.CelBool? then Ok(v.b) else Err(NotBool(v))
      case Err(m) => Err(Execution(m))
  }

  /** `ctx` binds exactly the listed signals, each to its value as the expression language has it. */
  ghost predicate Binds(ctx: map<string, CelValue>, signals: seq<string>, values: map<string, SignalValue>) {
    && (forall x :: x in ctx <==> x in signals)
    && forall x :: x in signals ==> x in values && IsValueOf(ctx[x], values[x])
  }

  /** A boolean is a boolean, a number a float, an enum label a string. */
  predicate IsValueOf(cel: CelValue, v: SignalValue) {
    match v
    case Bool(b) => cel == CelBool(b)
    case Num(n) => cel == CelFloat(n)
    case Enum(text) => cel == CelString(text)
  }

  /** `r` is the verdict of a program with this outcome: its boolean, else an error that says what it was instead. */
  predicate IsVerdict(outcome: Result<CelValue, string>, r: Result<bool, EvalError>) {
    match outcome
    case Ok(CelBool(b)) => r == Ok(b)
    case Ok(v) => r == Err(NotBool(v))
    case Err(m) => r == Err(Execution(m))
  }

  /**
   * A verdict, over the interpreter alone: false if a listed signal has no value; otherwise
   * the boolean the program returns on exactly the listed signals' values, or an error that
   * tells what else it returned, or why it failed.
   */
  lemma VerdictExactly(
      exec: Interpreter, c: CompiledCondition, values: map<string, SignalValue>, ctx: map<string, CelValue>)
    ensures (exists x :: x in c.signals && x !in values) ==> Evaluate(exec, c, values) == Ok(false)
    ensures Binds(ctx, c.signals, values) ==>
              var outcome, r := exec(c.program, ctx), Evaluate(exec, c, values);
              && (forall b :: outcome == Ok(CelBool(b)) ==> r == Ok(b))
              && (forall v :: outcome == Ok(v) && !v.CelBool? ==> r == Err(NotBool(v)))
              && (forall m :: outcome == Err(m) ==> r == Err(Execution(m)))
  {
    if Binds(ctx, c.signals, values) {
      assert ctx == Bindings(c.signals, values);
    }
  }

  /** There is such a context whenever all listed signals have values. */
  lemma BindingsBind(signals: seq<string>, values: map<string, SignalValue>)
    requires forall x :: x in signals ==> x in values
    ensures Binds(Bindings(signals, values), signals, values)
  {
  }

  method EvaluateCondition(exec: Interpreter, c: CompiledCondition, values: map<string, SignalValue>)
    returns (r: Result<bool, EvalError>)
    ensures (exists x :: x in c.signals && x !in values) ==> r == Ok(false)
    ensures forall ctx :: Binds(ctx, c.signals, values) ==> IsVerdict(exec(c.program, ctx), r)
    ensures r == Evaluate(exec, c, values)
  {
    forall ctx | Binds(ctx, c.signals, values)
      ensures IsVerdict(exec(c.program, ctx), Evaluate(exec, c, values))
    {
      VerdictExactly(exec, c, values, ctx);
    }
    var ctx: map<string, CelValue> := map[];
    for i := 0 to |c.signals|
      invariant forall j :: 0 <= j < i ==> c.signals[j] in values
      invariant ctx == Bindings(c.signals[..i], values)
    {
      var name := c.signals[i];
      if name !in values {
        return Ok(false);
      }
      ctx := ctx[name := ToCel(values[name])];
      assert c.signals[..i + 1] == c.signals[..i] + [name];
    }
    assert c.signals[..|c.signals|] == c.signals;
    var outcome := exec(c.program, ctx);
    match outcome
    case Ok(v) => r := if v.CelBool? then Ok(v.b) else Err(NotBool(v));
    case Err(m) => r := Err(Execution(m));
  }

  /**
   * A compiled condition never runs with an identifier unbound: whenever all its signals have
   * values, the interpreter's context binds every identifier of the program.
   */
  lemma ProgramFullyBound(
      parse: Parser, source: string, cat: SignalCatalog, values: map<string, SignalValue>, x: string)
    requires ConditionSpec(parse, source, cat).Ok?
    requires var c := ConditionSpec(parse, source, cat).value;
             Occurs(x, c.program) && forall name :: name in c.signals ==> name in values
    ensures var c := ConditionSpec(parse, source, cat).value;
            x in Bindings(c.signals, values) && Bindings(c.signals, values)[x] == ToCel(values[x])
  {
    CheckAcceptsExactly(ConditionSpec(parse, source, cat).value.program, cat);
  }

  /** The verdict depends only on the condition's own signals. */
  lemma EvaluateLocal(
      exec: Interpreter, c: CompiledCondition, values: map<string, SignalValue>, values': map<string, SignalValue>)
    requires forall name :: name in c.signals ==>
               (name in values <==> name in values') && (name in values ==> values[name] == values'[name])
    ensures Evaluate(exec, c, values) == Evaluate(exec, c, values')
  {
    assert Bindings(c.signals, values) == Bindings(c.signals, values');
  }
}
