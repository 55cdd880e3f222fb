/**
 The import statements a module declares: a stack walk over its syntax tree, skipping what only a type checker reads,
 against the recursive reading of the same tree.
 */
module Imports {
  import opened Wrappers

  /** One import statement: the dotted module, its relative level, and the names a "from" form binds. */
  datatype ImportRef = ImportRef(modulePath: seq<string>, level: nat, names: seq<string>)

  /** A syntax tree, as far as imports are concerned. */
  datatype Ast =
    | Import(modules: seq<seq<string>>)
    | ImportFrom(modulePath: seq<string>, level: nat, names: seq<string>)
    | If(typeChecking: bool, testAndBody: seq<Ast>, orElse: seq<Ast>)
    | Other(parts: seq<Ast>)

  /** How many children run: of an "if TYPE_CHECKING" only the else branch does. */
  function Arity(n: Ast): nat {
    match n
    case If(typeChecking, body, orElse) => (if typeChecking then 0 else |body|) + |orElse|
    case Other(parts) => |parts|
    case _ => 0
  }

  function Branch(n: Ast, i: nat): (c: Ast)
    requires i < Arity(n)
    ensures c < n
  {
    match n
    case If(typeChecking, body, orElse) =>
      if typeChecking then orElse[i] else if i < |body| then body[i] else orElse[i - |body|]
    case Other(parts) => parts[i]
  }

  function Branches(n: Ast): seq<Ast> {
    seq(Arity(n), i requires 0 <= i < Arity(n) => Branch(n, i))
  }

  /** The statements a node itself is. */
  function OwnRefs(n: Ast): seq<ImportRef> {
    match n
    case Import(modules) => seq(|modules|, i requires 0 <= i < |modules| => ImportRef(modules[i], 0, []))
    case ImportFrom(m, level, names) => [ImportRef(m, level, names)]
    case _ => []
  }

  function SumRefs(parts: seq<multiset<ImportRef>>, n: nat): multiset<ImportRef>
    requires n <= |parts|
  {
    if n == 0 then multiset{} else SumRefs(parts, n - 1) + parts[n - 1]
  }

  /** Every statement of a tree that runs, as often as it occurs. */
  function Declared(n: Ast): multiset<ImportRef>
    decreases n, 1
  {
    multiset(OwnRefs(n)) + SumRefs(DeclaredBelow(n), Arity(n))
  }

  function DeclaredBelow(n: Ast): seq<multiset<ImportRef>>
    decreases n, 0
  {
    seq(Arity(n), i requires 0 <= i < Arity(n) => Declared(Branch(n, i)))
  }

  function SumSizes(sizes: seq<nat>, n: nat): nat
    requires n <= |sizes|
  {
    if n == 0 then 0 else SumSizes(sizes, n - 1) + sizes[n - 1]
  }

  function Size(n: Ast): nat
    decreases n, 1
  {
    1 + SumSizes(SizesBelow(n), Arity(n))
  }

  function SizesBelow(n: Ast): seq<nat>
    decreases n, 0
  {
    seq(Arity(n), i requires 0 <= i < Arity(n) => Size(Branch(n, i)))
  }

  /** What a stack still declares, and how large it is. */
  function DeclaredOn(stack: seq<Ast>): seq<multiset<ImportRef>> {
    seq(|stack|, i requires 0 <= i < |stack| => Declared(stack[i]))
  }

  function SizesOn(stack: seq<Ast>): seq<nat> {
    seq(|stack|, i requires 0 <= i < |stack| => Size(stack[i]))
  }

  function Pending(stack: seq<Ast>): multiset<ImportRef> {
    SumRefs(DeclaredOn(stack), |stack|)
  }

  function StackSize(stack: seq<Ast>): nat {
    SumSizes(SizesOn(stack), |stack|)
  }

  lemma {:induction false} SumRefsConcat(a: seq<multiset<ImportRef>>, b: seq<multiset<ImportRef>>, k: nat)
    requires k <= |b|
    ensures SumRefs(a + b, |a| + k) == SumRefs(a, |a|) + SumRefs(b, k)
    decreases k
  {
    if k == 0 {
      SumRefsPrefix(a, b, |a|);
    } else {
      SumRefsConcat(a, b, k - 1);
    }
  }

  lemma {:induction false} SumRefsPrefix(a: seq<multiset<ImportRef>>, b: seq<multiset<ImportRef>>, k: nat)
    requires k <= |a|
    ensures SumRefs(a + b, k) == SumRefs(a, k)
    decreases k
  {
    if k > 0 {
      SumRefsPrefix(a, b, k - 1);
    }
  }

  lemma {:induction false} SumSizesConcat(a: seq<nat>, b: seq<nat>, k: nat)
    requires k <= |b|
    ensures SumSizes(a + b, |a| + k) == SumSizes(a, |a|) + SumSizes(b, k)
    decreases k
  {
    if k == 0 {
      SumSizesPrefix(a, b, |a|);
    } else {
      SumSizesConcat(a, b, k - 1);
    }
  }

  lemma {:induction false} SumSizesPrefix(a: seq<nat>, b: seq<nat>, k: nat)
    requires k <= |a|
    ensures SumSizes(a + b, k) == SumSizes(a, k)
    decreases k
  {
    if k > 0 {
      SumSizesPrefix(a, b, k - 1);
    }
  }

  lemma OnConcat(rest: seq<Ast>, more: seq<Ast>)
    ensures DeclaredOn(rest + more) == DeclaredOn(rest) + DeclaredOn(more)
    ensures SizesOn(rest + more) == SizesOn(rest) + SizesOn(more)
  {
    forall i | 0 <= i < |rest + more|
      ensures DeclaredOn(rest + more)[i] == (DeclaredOn(rest) + DeclaredOn(more))[i]
      ensures SizesOn(rest + more)[i] == (SizesOn(rest) + SizesOn(more))[i]
    {
      assert (rest + more)[i] == if i < |rest| then rest[i] else more[i - |rest|];
    }
    SameElements(DeclaredOn(rest + more), DeclaredOn(rest) + DeclaredOn(more));
    SameElements(SizesOn(rest + more), SizesOn(rest) + SizesOn(more));
  }

  lemma SumRefsBoth(a: seq<multiset<ImportRef>>, b: seq<multiset<ImportRef>>)
    ensures SumRefs(a + b, |a + b|) == SumRefs(a, |a|) + SumRefs(b, |b|)
  {
    SumRefsConcat(a, b, |b|);
  }

  lemma SumSizesBoth(a: seq<nat>, b: seq<nat>)
    ensures SumSizes(a + b, |a + b|) == SumSizes(a, |a|) + SumSizes(b, |b|)
  {
    SumSizesConcat(a, b, |b|);
  }

  lemma ConcatOn(rest: seq<Ast>, more: seq<Ast>)
    ensures Pending(rest + more) == Pending(rest) + Pending(more)
    ensures StackSize(rest + more) == StackSize(rest) + StackSize(more)
  {
    OnConcat(rest, more);
    SumRefsBoth(DeclaredOn(rest), DeclaredOn(more));
    SumSizesBoth(SizesOn(rest), SizesOn(more));
  }

  lemma OneNode(node: Ast)
    ensures Pending([node]) == Declared(node) == multiset(OwnRefs(node)) + Pending(Branches(node))
    ensures StackSize([node]) == Size(node) == 1 + StackSize(Branches(node))
  {
    assert SumRefs(DeclaredOn([node]), 0) == multiset{} && SumSizes(SizesOn([node]), 0) == 0;
    SameElements(DeclaredOn(Branches(node)), DeclaredBelow(node));
    SameElements(SizesOn(Branches(node)), SizesBelow(node));
  }

  /** Popping a node and pushing its running children leaves exactly the node's own statements to emit. */
  lemma PopAndPush(rest: seq<Ast>, node: Ast)
    ensures Pending(rest + [node]) == multiset(OwnRefs(node)) + Pending(rest + Branches(node))
    ensures StackSize(rest + Branches(node)) < StackSize(rest + [node])
  {
    ConcatOn(rest, [node]);
    ConcatOn(rest, Branches(node));
    OneNode(node);
  }

  /** The walk: every statement that runs is found, exactly as often as it occurs, in some order. */
  method ImportRefs(tree: Option<Ast>) returns (out: seq<ImportRef>)
    ensures tree == None ==> out == []
    ensures tree.Some? ==> multiset(out) == Declared(tree.value)
  {
    out := [];
    if tree == None {
      return;
    }
    var stack := [tree.value];
    OneNode(tree.value);
    while stack != []
      invariant multiset(out) + Pending(stack) == Declared(tree.value)
      decreases StackSize(stack)
    {
      var rest, node := stack[..|stack| - 1], stack[|stack| - 1];
      FrontAndLast(stack);
      PopAndPush(rest, node);
      out := out + OwnRefs(node);
      stack := rest + Branches(node);
    }
  }

  /** What the statements themselves declare. */
  lemma StatementsDeclare(modulePath: seq<string>, level: nat, names: seq<string>, modules: seq<seq<string>>,
                          more: seq<seq<string>>)
    ensures Declared(ImportFrom(modulePath, level, names)) == multiset{ImportRef(modulePath, level, names)}
    ensures Declared(Import([modulePath])) == multiset{ImportRef(modulePath, 0, [])}
    ensures Declared(Import(modules + more)) == Declared(Import(modules)) + Declared(Import(more))
  {
    assert OwnRefs(Import([modulePath])) == [ImportRef(modulePath, 0, [])];
    SameElements(OwnRefs(Import(modules + more)), OwnRefs(Import(modules)) + OwnRefs(Import(more)));
  }

  /** A node that is no statement declares what its parts do, as often as they do. */
  lemma PartsDeclare(parts: seq<Ast>, more: seq<Ast>, part: Ast)
    ensures Declared(Other([part])) == Declared(part)
    ensures Declared(Other(parts + more)) == Declared(Other(parts)) + Declared(Other(more))
    ensures Declared(Other([])) == multiset{}
  {
    OtherDeclares(parts);
    OtherDeclares(more);
    OtherDeclares(parts + more);
    OtherDeclares([part]);
    ConcatOn(parts, more);
    OneNode(part);
  }

  lemma OtherDeclares(parts: seq<Ast>)
    ensures Declared(Other(parts)) == Pending(parts)
  {
    SameElements(DeclaredBelow(Other(parts)), DeclaredOn(parts));
  }

  /** Any other conditional declares both what its body and what its else branch does. */
  lemma OtherIfsAreRead(body: seq<Ast>, orElse: seq<Ast>)
    ensures Declared(If(false, body, orElse)) == Declared(Other(body + orElse))
  {
    SameElements(DeclaredBelow(If(false, body, orElse)), DeclaredBelow(Other(body + orElse)));
  }

  /** Nothing inside an "if TYPE_CHECKING" body is declared; its else branch is. */
  lemma TypeCheckingIsSkipped(body: seq<Ast>, orElse: seq<Ast>)
    ensures Declared(If(true, body, orElse)) == Declared(Other(orElse))
  {
    assert DeclaredBelow(If(true, body, orElse)) == DeclaredBelow(Other(orElse));
  }
}
