/**
 * Operator precedence and associativity of grammar.js: the ordered
 * precedence list, the table of binary operators, prefix `!`/`-` and the
 * conditional `c ? t : e`.
 *
 * Tree-sitter resolves the shift/reduce conflicts of
 * `expression op expression` by the position of each operator's name in the
 * `precedences` list (earlier = tighter) and, between equal names, by
 * `prec.left`/`prec.right`. `WellPrec` states that resolution as a property
 * of one node and its children. `Fold` builds a tree from the flat token
 * order `operand (op operand)*` by splitting at the loosest operator, and the
 * lemmas show it is the one and only well-precedenced tree with that token
 * order.
 */
module Precedence {

  // ---------------------------------------------------------------------
  // The ordered precedence list
  // ---------------------------------------------------------------------

  /** The names in the first group of `precedences`. */
  datatype PrecName =
    | Member | Call | UnaryVoid | BinaryExp | BinaryTimes | BinaryPlus
    | BinaryShift | BinaryCompare | BinaryRelation | BinaryEquality
    | BitwiseAnd | BitwiseXor | BitwiseOr | LogicalAnd | LogicalOr
    | TernaryPrec | SequenceExpression | ArrowFunction

  /** The first group of `precedences`, tightest first. */
  const PrecedenceList: seq<PrecName> :=
    [ Member, Call, UnaryVoid, BinaryExp, BinaryTimes, BinaryPlus,
      BinaryShift, BinaryCompare, BinaryRelation, BinaryEquality,
      BitwiseAnd, BitwiseXor, BitwiseOr, LogicalAnd, LogicalOr,
      TernaryPrec, SequenceExpression, ArrowFunction ]

  /** The index of a name in `PrecedenceList`; a smaller level binds tighter. */
  function Level(p: PrecName): nat
  {
    match p
    case Member => 0
    case Call => 1
    case UnaryVoid => 2
    case BinaryExp => 3
    case BinaryTimes => 4
    case BinaryPlus => 5
    case BinaryShift => 6
    case BinaryCompare => 7
    case BinaryRelation => 8
    case BinaryEquality => 9
    case BitwiseAnd => 10
    case BitwiseXor => 11
    case BitwiseOr => 12
    case LogicalAnd => 13
    case LogicalOr => 14
    case TernaryPrec => 15
    case SequenceExpression => 16
    case ArrowFunction => 17
  }

  /** `Level(p)` is the position of `p` in the list, and its only one. */
  lemma LevelIsPosition(p: PrecName)
    ensures Level(p) < |PrecedenceList| && PrecedenceList[Level(p)] == p
    ensures forall i :: 0 <= i < |PrecedenceList| && PrecedenceList[i] == p ==> i == Level(p)
  {
  }

  // ---------------------------------------------------------------------
  // The binary operator table
  // ---------------------------------------------------------------------

  /** The operators of `binary_expression`, in the order of its table. */
  datatype BinOp =
    | And | Or | Shr | UShr | Shl | BitAnd | BitXor | BitOr | Add | Sub
    | Mul | Div | Mod | Pow | Lt | Le | Eq | Ne | Ge | Gt

  datatype Assoc = LeftAssoc | RightAssoc

  /** The operator's token. */
  function Symbol(op: BinOp): string
  {
    match op
    case And => "&&"
    case Or => "||"
    case Shr => ">>"
    case UShr => ">>>"
    case Shl => "<<"
    case BitAnd => "&"
    case BitXor => "^"
    case BitOr => "|"
    case Add => "+"
    case Sub => "-"
    case Mul => "*"
    case Div => "/"
    case Mod => "%"
    case Pow => "**"
    case Lt => "<"
    case Le => "<="
    case Eq => "=="
    case Ne => "!="
    case Ge => ">="
    case Gt => ">"
  }

  /** The operator's name in the precedence list. */
  function PrecOf(op: BinOp): PrecName
  {
    match op
    case And => LogicalAnd
    case Or => LogicalOr
    case Shr => BinaryShift
    case UShr => BinaryShift
    case Shl => BinaryShift
    case BitAnd => BitwiseAnd
    case BitXor => BitwiseXor
    case BitOr => BitwiseOr
    case Add => BinaryPlus
    case Sub => BinaryPlus
    case Mul => BinaryTimes
    case Div => BinaryTimes
    case Mod => BinaryTimes
    case Pow => BinaryExp
    case Lt => BinaryRelation
    case Le => BinaryRelation
    case Eq => BinaryEquality
    case Ne => BinaryEquality
    case Ge => BinaryRelation
    case Gt => BinaryRelation
  }

  /** `prec.right` for the row marked `"right"`, `prec.left` for every other row. */
  function AssocOf(op: BinOp): Assoc
  {
    if op == Pow then RightAssoc else LeftAssoc
  }

  predicate IsRightAssoc(op: BinOp) { AssocOf(op) == RightAssoc }

  function OpLevel(op: BinOp): nat { Level(PrecOf(op)) }

  /** No two operators share a token, so the token decides the row. */
  lemma SymbolInjective(op: BinOp, op': BinOp)
    ensures Symbol(op) == Symbol(op') <==> op == op'
  {
  }

  /** `**` is the one right-associative operator (grammar row `"right"`). */
  lemma OnlyPowRight(op: BinOp)
    ensures IsRightAssoc(op) <==> op == Pow
  {
  }

  /** Operators of one level share their associativity. */
  lemma SameLevelSameAssoc(a: BinOp, b: BinOp)
    ensures OpLevel(a) == OpLevel(b) ==> IsRightAssoc(a) == IsRightAssoc(b)
  {
    OnlyPowRight(a);
    OnlyPowRight(b);
  }

  /** Operators that share a name in the list share a level: `* / %`, `+ -`, equality. */
  lemma GroupLevels()
    ensures OpLevel(Mul) == OpLevel(Div) == OpLevel(Mod)
    ensures OpLevel(Add) == OpLevel(Sub)
    ensures OpLevel(Eq) == OpLevel(Ne)
  {
  }

  /** Likewise the shifts and the relations. */
  lemma ShiftRelationLevels()
    ensures OpLevel(Shr) == OpLevel(UShr) == OpLevel(Shl)
    ensures OpLevel(Lt) == OpLevel(Le) == OpLevel(Ge) == OpLevel(Gt)
  {
  }

  /**
   * The order the list gives the groups, tightest first: `**`, `* / %`,
   * `+ -`, shifts, relations, equality.
   */
  lemma ArithmeticOrder()
    ensures OpLevel(Pow) < OpLevel(Mul)
    ensures OpLevel(Mul) < OpLevel(Add)
    ensures OpLevel(Add) < OpLevel(Shr)
    ensures OpLevel(Shr) < OpLevel(Lt)
    ensures OpLevel(Lt) < OpLevel(Eq)
  {
  }

  /** Then, after equality: `&`, `^`, `|`, `&&`, `||`. */
  lemma BitwiseLogicalOrder()
    ensures OpLevel(Eq) < OpLevel(BitAnd)
    ensures OpLevel(BitAnd) < OpLevel(BitXor)
    ensures OpLevel(BitXor) < OpLevel(BitOr)
    ensures OpLevel(BitOr) < OpLevel(And)
    ensures OpLevel(And) < OpLevel(Or)
  {
  }

  /** `binary_compare` is in the list, but no operator of the table uses it. */
  lemma CompareUnused(op: BinOp)
    ensures PrecOf(op) != BinaryCompare
  {
  }

  /** `unary_void` is tighter, and `ternary` looser, than every binary operator. */
  lemma UnaryAndTernaryBounds(op: BinOp)
    ensures Level(UnaryVoid) < OpLevel(op) < Level(TernaryPrec)
  {
  }

  // ---------------------------------------------------------------------
  // Precedence tables
  // ---------------------------------------------------------------------

  /**
   * What conflict resolution reads off the grammar for each binary
   * operator: its level (smaller binds tighter) and whether it is
   * `prec.right`. The fold and its lemmas below hold for every table in
   * which operators of one level share their associativity; `Grammar` is
   * the table of grammar.js.
   */
  datatype Table = Table(level: BinOp -> nat, right: BinOp -> bool)

  predicate Consistent(t: Table)
  {
    forall a: BinOp, b: BinOp :: t.level(a) == t.level(b) ==> t.right(a) == t.right(b)
  }

  const Grammar: Table := Table(OpLevel, IsRightAssoc)

  lemma GrammarConsistent()
    ensures Consistent(Grammar)
  {
    forall a: BinOp, b: BinOp {
      SameLevelSameAssoc(a, b);
    }
  }

  // ---------------------------------------------------------------------
  // Expressions and their flat token order
  // ---------------------------------------------------------------------

  /** The operators of `unary_expression`. */
  datatype UnaryOp = Not | Neg

  /** Expression trees; an atom stands for any primary expression. */
  datatype Expr =
    | Atom(name: nat)
    | Unary(uop: UnaryOp, arg: Expr)
    | Binary(left: Expr, op: BinOp, right: Expr)
    | Ternary(cond: Expr, consequence: Expr, alternative: Expr)

  /** Prefix operators followed by one atom. */
  datatype Operand = Operand(prefix: seq<UnaryOp>, name: nat)

  /** The token order `operand (op operand)*`. */
  datatype Chain = Chain(operands: seq<Operand>, ops: seq<BinOp>)

  predicate ValidChain(c: Chain) { |c.operands| == |c.ops| + 1 }

  /** A tree made of atoms, unary and binary nodes only. */
  predicate IsChainExpr(e: Expr)
  {
    match e
    case Atom(_) => true
    case Unary(_, a) => IsChainExpr(a)
    case Binary(l, _, r) => IsChainExpr(l) && IsChainExpr(r)
    case Ternary(_, _, _) => false
  }

  /** The tokens of a tree, left to right, without parentheses. */
  function Flatten(e: Expr): (c: Chain)
    requires IsChainExpr(e)
    ensures ValidChain(c)
    ensures e.Atom? ==> c.ops == []
    ensures e.Binary? ==> c.ops != []
  {
    match e
    case Atom(n) => Chain([Operand([], n)], [])
    case Unary(u, a) =>
      var c := Flatten(a);
      Chain([Operand([u] + c.operands[0].prefix, c.operands[0].name)] + c.operands[1..], c.ops)
    case Binary(l, op, r) =>
      var lc := Flatten(l);
      var rc := Flatten(r);
      Chain(lc.operands + rc.operands, lc.ops + [op] + rc.ops)
  }

  /** The left child `l` of an `op` node needs no parentheses. */
  predicate LeftOk(l: Expr, op: BinOp, t: Table)
  {
    match l
    case Atom(_) => true
    case Unary(_, _) => true
    case Binary(_, lop, _) =>
      t.level(lop) < t.level(op) || (t.level(lop) == t.level(op) && !t.right(op))
    case Ternary(_, _, _) => false
  }

  /** The right child `r` of an `op` node needs no parentheses. */
  predicate RightOk(r: Expr, op: BinOp, t: Table)
  {
    match r
    case Atom(_) => true
    case Unary(_, _) => true
    case Binary(_, rop, _) =>
      t.level(rop) < t.level(op) || (t.level(rop) == t.level(op) && t.right(op))
    case Ternary(_, _, _) => false
  }

  /**
   * Every node agrees with the precedence list: the argument of `!`/`-` is an
   * atom or another unary (`unary_void` is tighter than every binary level
   * and than `ternary`); a binary child is tighter, or equally tight on the
   * side the associativity allows, and never a conditional (`ternary` is
   * looser than every binary level); a conditional is `prec.right`, so its
   * condition is not itself a conditional, while its consequence, between
   * `?` and `:`, is any expression.
   */
  predicate WellPrec(e: Expr, t: Table)
  {
    match e
    case Atom(_) => true
    case Unary(_, a) => (a.Atom? || a.Unary?) && WellPrec(a, t)
    case Binary(l, op, r) => LeftOk(l, op, t) && RightOk(r, op, t) && WellPrec(l, t) && WellPrec(r, t)
    case Ternary(c, th, a) => !c.Ternary? && WellPrec(c, t) && WellPrec(th, t) && WellPrec(a, t)
  }

  /** A well-precedenced tree without a conditional on top has none inside its chain. */
  lemma {:induction false} WellPrecChain(e: Expr, t: Table)
    requires WellPrec(e, t) && !e.Ternary?
    ensures IsChainExpr(e)
  {
    match e
    case Atom(_) =>
    case Unary(_, a) => WellPrecChain(a, t);
    case Binary(l, _, r) => WellPrecChain(l, t); WellPrecChain(r, t);
  }

  // ---------------------------------------------------------------------
  // Folding a chain
  // ---------------------------------------------------------------------

  /** Prefix operators nest rightward around the atom. */
  function FoldOperand(o: Operand): (e: Expr)
    ensures e.Atom? || e.Unary?
    ensures IsChainExpr(e)
    ensures Flatten(e) == Chain([o], [])
    decreases |o.prefix|
  {
    if o.prefix == [] then Atom(o.name)
    else
      var a := FoldOperand(Operand(o.prefix[1..], o.name));
      assert [o.prefix[0]] + o.prefix[1..] == o.prefix;
      Unary(o.prefix[0], a)
  }

  /** The tree of one operand follows every table. */
  lemma {:induction false} FoldOperandWellPrec(o: Operand, t: Table)
    ensures WellPrec(FoldOperand(o), t)
    decreases |o.prefix|
  {
    if o.prefix != [] {
      FoldOperandWellPrec(Operand(o.prefix[1..], o.name), t);
    }
  }

  /** `k` takes the split from `best`: it is looser, or equally loose and left-associative. */
  predicate TakesSplit(ops: seq<BinOp>, k: nat, best: nat, t: Table)
    requires k < |ops| && best < |ops|
  {
    t.level(ops[k]) > t.level(ops[best]) || (t.level(ops[k]) == t.level(ops[best]) && !t.right(ops[k]))
  }

  /**
   * `best` is where the root would split among `ops[..k]`; the scan ends at
   * the last loosest operator of a left-associative level and at the first
   * of a right-associative one.
   */
  function SplitFrom(ops: seq<BinOp>, k: nat, best: nat, t: Table): (i: nat)
    requires best < k <= |ops|
    ensures i < |ops|
    decreases |ops| - k
  {
    if k == |ops| then best
    else if TakesSplit(ops, k, best, t) then SplitFrom(ops, k + 1, k, t)
    else SplitFrom(ops, k + 1, best, t)
  }

  /** Where the root of the folded tree splits `ops`. */
  function SplitIndex(ops: seq<BinOp>, t: Table): (i: nat)
    requires |ops| > 0
    ensures i < |ops|
  {
    SplitFrom(ops, 1, 0, t)
  }

  /** Among `ops[..k]`, `p` is a loosest operator, and every other one on the side its associativity groups is strictly tighter. */
  predicate IsRootSplit(ops: seq<BinOp>, p: nat, k: nat, t: Table)
    requires p < k <= |ops|
  {
    && (forall j :: 0 <= j < k ==> t.level(ops[j]) <= t.level(ops[p]))
    && (t.right(ops[p]) ==> forall j :: 0 <= j < p ==> t.level(ops[j]) < t.level(ops[p]))
    && (!t.right(ops[p]) ==> forall j :: p < j < k ==> t.level(ops[j]) < t.level(ops[p]))
  }

  /** A scan step keeps `IsRootSplit`. */
  lemma SplitStep(ops: seq<BinOp>, k: nat, best: nat, t: Table)
    requires Consistent(t)
    requires best < k < |ops|
    requires IsRootSplit(ops, best, k, t)
    ensures TakesSplit(ops, k, best, t) ==> IsRootSplit(ops, k, k + 1, t)
    ensures !TakesSplit(ops, k, best, t) ==> IsRootSplit(ops, best, k + 1, t)
  {
    assert t.level(ops[k]) == t.level(ops[best]) ==> t.right(ops[k]) == t.right(ops[best]);
  }

  lemma {:induction false} SplitFromRoot(ops: seq<BinOp>, k: nat, best: nat, t: Table)
    requires Consistent(t)
    requires best < k <= |ops|
    requires IsRootSplit(ops, best, k, t)
    ensures IsRootSplit(ops, SplitFrom(ops, k, best, t), |ops|, t)
    decreases |ops| - k
  {
    if k < |ops| {
      SplitStep(ops, k, best, t);
      if TakesSplit(ops, k, best, t) {
        SplitFromRoot(ops, k + 1, k, t);
      } else {
        SplitFromRoot(ops, k + 1, best, t);
      }
    }
  }

  /** The split is at a loosest operator, with every other such operator on the side its associativity groups. */
  lemma SplitIndexLoosest(ops: seq<BinOp>, t: Table)
    requires Consistent(t)
    requires |ops| > 0
    ensures IsRootSplit(ops, SplitIndex(ops, t), |ops|, t)
  {
    SplitFromRoot(ops, 1, 0, t);
  }

  /** Those properties pin the split down. */
  lemma SplitIndexUnique(ops: seq<BinOp>, p: nat, t: Table)
    requires Consistent(t)
    requires p < |ops| && IsRootSplit(ops, p, |ops|, t)
    ensures SplitIndex(ops, t) == p
  {
    SplitIndexLoosest(ops, t);
    var q := SplitIndex(ops, t);
    assert t.level(ops[p]) == t.level(ops[q]) ==> t.right(ops[p]) == t.right(ops[q]);
  }

  /** The operands and operators left of operator `i`. */
  function LeftOf(c: Chain, i: nat): (l: Chain)
    requires ValidChain(c) && i < |c.ops|
    ensures ValidChain(l) && |l.ops| == i
  {
    Chain(c.operands[..i + 1], c.ops[..i])
  }

  /** The operands and operators right of operator `i`. */
  function RightOf(c: Chain, i: nat): (r: Chain)
    requires ValidChain(c) && i < |c.ops|
    ensures ValidChain(r) && |r.ops| == |c.ops| - i - 1
  {
    Chain(c.operands[i + 1..], c.ops[i + 1..])
  }

  /** Cutting at operator `i` and joining the halves around it gives the chain back. */
  lemma CutJoin(c: Chain, i: nat)
    requires ValidChain(c) && i < |c.ops|
    ensures LeftOf(c, i).operands + RightOf(c, i).operands == c.operands
    ensures LeftOf(c, i).ops + [c.ops[i]] + RightOf(c, i).ops == c.ops
  {
    assert c.operands[..i + 1] + c.operands[i + 1..] == c.operands;
    assert c.ops[..i] + [c.ops[i]] + c.ops[i + 1..] == c.ops;
  }

  /** The tree `Fold` builds from a chain by splitting at `SplitIndex`. */
  function Fold(c: Chain, t: Table): (e: Expr)
    requires ValidChain(c)
    ensures IsChainExpr(e)
    ensures e.Binary? <==> |c.ops| > 0
    decreases |c.ops|
  {
    if |c.ops| == 0 then FoldOperand(c.operands[0])
    else
      var i := SplitIndex(c.ops, t);
      Binary(Fold(LeftOf(c, i), t), c.ops[i], Fold(RightOf(c, i), t))
  }

  /** Folding keeps the tokens in their order. */
  lemma {:induction false} FoldFlatten(c: Chain, t: Table)
    requires ValidChain(c)
    ensures Flatten(Fold(c, t)) == c
    decreases |c.ops|
  {
    if |c.ops| > 0 {
      var i := SplitIndex(c.ops, t);
      FoldFlatten(LeftOf(c, i), t);
      FoldFlatten(RightOf(c, i), t);
      CutJoin(c, i);
    } else {
      assert c.operands == [c.operands[0]];
    }
  }

  /** The folded tree follows the table at every node. */
  lemma {:induction false} FoldWellPrec(c: Chain, t: Table)
    requires Consistent(t)
    requires ValidChain(c)
    ensures WellPrec(Fold(c, t), t)
    decreases |c.ops|
  {
    if |c.ops| == 0 {
      FoldOperandWellPrec(c.operands[0], t);
    } else {
      var i := SplitIndex(c.ops, t);
      var lc := LeftOf(c, i);
      var rc := RightOf(c, i);
      SplitIndexLoosest(c.ops, t);
      FoldWellPrec(lc, t);
      FoldWellPrec(rc, t);
      var l := Fold(lc, t);
      var r := Fold(rc, t);
      if l.Binary? {
        var k := SplitIndex(lc.ops, t);
        assert l.op == c.ops[k];
      }
      if r.Binary? {
        var k := SplitIndex(rc.ops, t);
        assert r.op == c.ops[i + 1 + k];
      }
    }
  }

  /** No operator inside a well-precedenced tree is looser than its root operator. */
  lemma {:induction false} OpsBounded(e: Expr, t: Table)
    requires IsChainExpr(e) && WellPrec(e, t)
    ensures forall o :: o in Flatten(e).ops ==> e.Binary? && t.level(o) <= t.level(e.op)
  {
    match e
    case Atom(_) =>
    case Unary(_, _) => OperandUnique(e, t);
    case Binary(l, op, r) =>
      OpsBounded(l, t);
      OpsBounded(r, t);
  }

  /** An atom under prefix operators is the fold of its one operand. */
  lemma {:induction false} OperandUnique(e: Expr, t: Table)
    requires IsChainExpr(e) && WellPrec(e, t) && !e.Binary?
    ensures Flatten(e).ops == [] && FoldOperand(Flatten(e).operands[0]) == e
  {
    match e
    case Atom(_) =>
    case Unary(u, a) =>
      OperandUnique(a, t);
  }

  /** Cutting the tokens of a binary node at its own operator gives the tokens of its children. */
  lemma FlattenCut(e: Expr)
    requires IsChainExpr(e) && e.Binary?
    ensures |Flatten(e.left).ops| < |Flatten(e).ops|
    ensures Flatten(e).ops[|Flatten(e.left).ops|] == e.op
    ensures LeftOf(Flatten(e), |Flatten(e.left).ops|) == Flatten(e.left)
    ensures RightOf(Flatten(e), |Flatten(e.left).ops|) == Flatten(e.right)
  {
    var c := Flatten(e);
    var lc := Flatten(e.left);
    var rc := Flatten(e.right);
    var p := |lc.ops|;
    assert c.operands[..p + 1] == lc.operands;
    assert c.ops[..p] == lc.ops;
    assert c.operands[p + 1..] == rc.operands;
    assert c.ops[p + 1..] == rc.ops;
  }

  /** The root operator of a well-precedenced tree is a root split of its tokens. */
  lemma RootIsSplit(e: Expr, t: Table)
    requires IsChainExpr(e) && WellPrec(e, t) && e.Binary?
    ensures |Flatten(e.left).ops| < |Flatten(e).ops|
    ensures IsRootSplit(Flatten(e).ops, |Flatten(e.left).ops|, |Flatten(e).ops|, t)
  {
    var c := Flatten(e);
    var lc := Flatten(e.left);
    var rc := Flatten(e.right);
    var p := |lc.ops|;
    FlattenCut(e);
    OpsBounded(e.left, t);
    OpsBounded(e.right, t);
    forall j | 0 <= j < |c.ops|
      ensures t.level(c.ops[j]) <= t.level(e.op)
      ensures t.right(e.op) && j < p ==> t.level(c.ops[j]) < t.level(e.op)
      ensures !t.right(e.op) && p < j ==> t.level(c.ops[j]) < t.level(e.op)
    {
      if j < p {
        assert c.ops[j] == lc.ops[j];
        assert c.ops[j] in lc.ops;
      } else if p < j {
        assert c.ops[j] == rc.ops[j - p - 1];
        assert c.ops[j] in rc.ops;
      }
    }
  }

  /**
   * A well-precedenced tree is the fold of its own tokens: the table leaves
   * exactly one tree per token order.
   */
  lemma {:induction false} FoldUnique(e: Expr, t: Table)
    requires Consistent(t)
    requires IsChainExpr(e) && WellPrec(e, t)
    ensures Fold(Flatten(e), t) == e
  {
    match e
    case Atom(_) => OperandUnique(e, t);
    case Unary(_, _) => OperandUnique(e, t);
    case Binary(l, op, r) =>
      FlattenCut(e);
      RootIsSplit(e, t);
      SplitIndexUnique(Flatten(e).ops, |Flatten(l).ops|, t);
      FoldUnique(l, t);
      FoldUnique(r, t);
  }

  /**
   * Two operators in a row: the first groups first exactly when it is
   * tighter, or equally tight and left-associative.
   */
  lemma ThreeOperands(a: nat, op1: BinOp, b: nat, op2: BinOp, c: nat, t: Table)
    requires Consistent(t)
    ensures Fold(Chain([Operand([], a), Operand([], b), Operand([], c)], [op1, op2]), t) ==
      if t.level(op1) < t.level(op2) || (t.level(op1) == t.level(op2) && !t.right(op1))
      then Binary(Binary(Atom(a), op1, Atom(b)), op2, Atom(c))
      else Binary(Atom(a), op1, Binary(Atom(b), op2, Atom(c)))
  {
    assert t.level(op1) == t.level(op2) ==> t.right(op1) == t.right(op2);
    var c3 := Chain([Operand([], a), Operand([], b), Operand([], c)], [op1, op2]);
    if t.level(op1) < t.level(op2) || (t.level(op1) == t.level(op2) && !t.right(op1)) {
      var l := Binary(Atom(a), op1, Atom(b));
      assert IsChainExpr(Atom(a)) && IsChainExpr(Atom(b));
      assert IsChainExpr(l);
      assert Flatten(l) == Chain([Operand([], a), Operand([], b)], [op1]);
      var e := Binary(l, op2, Atom(c));
      assert Flatten(e).operands == [Operand([], a), Operand([], b)] + [Operand([], c)];
      assert Flatten(e).ops == [op1] + [op2] + [];
      assert Flatten(e) == c3;
      FoldUnique(e, t);
    } else {
      var r := Binary(Atom(b), op2, Atom(c));
      assert IsChainExpr(Atom(b)) && IsChainExpr(Atom(c));
      assert IsChainExpr(r);
      assert Flatten(r) == Chain([Operand([], b), Operand([], c)], [op2]);
      var e := Binary(Atom(a), op1, r);
      assert Flatten(e).operands == [Operand([], a)] + [Operand([], b), Operand([], c)];
      assert Flatten(e).ops == [] + [op1] + [op2];
      assert Flatten(e) == c3;
      FoldUnique(e, t);
    }
  }

  /** `a + b * c` is `a + (b * c)`, and `a * b + c` is `(a * b) + c`. */
  lemma TimesTighterThanPlus(a: nat, b: nat, c: nat)
    ensures Fold(Chain([Operand([], a), Operand([], b), Operand([], c)], [Add, Mul]), Grammar) ==
      Binary(Atom(a), Add, Binary(Atom(b), Mul, Atom(c)))
    ensures Fold(Chain([Operand([], a), Operand([], b), Operand([], c)], [Mul, Add]), Grammar) ==
      Binary(Binary(Atom(a), Mul, Atom(b)), Add, Atom(c))
  {
    GrammarConsistent();
    ThreeOperands(a, Add, b, Mul, c, Grammar);
    ThreeOperands(a, Mul, b, Add, c, Grammar);
  }

  /** `a - b - c` is `(a - b) - c`, and `a ** b ** c` is `a ** (b ** c)`. */
  lemma MinusLeftPowRight(a: nat, b: nat, c: nat)
    ensures Fold(Chain([Operand([], a), Operand([], b), Operand([], c)], [Sub, Sub]), Grammar) ==
      Binary(Binary(Atom(a), Sub, Atom(b)), Sub, Atom(c))
    ensures Fold(Chain([Operand([], a), Operand([], b), Operand([], c)], [Pow, Pow]), Grammar) ==
      Binary(Atom(a), Pow, Binary(Atom(b), Pow, Atom(c)))
  {
    GrammarConsistent();
    ThreeOperands(a, Sub, b, Sub, c, Grammar);
    ThreeOperands(a, Pow, b, Pow, c, Grammar);
  }

  /** A prefix operator takes only the atom after it, whatever binary operator follows: `-a ** b` is `(-a) ** b`. */
  lemma UnaryBindsTighter(u: UnaryOp, a: nat, op: BinOp, b: nat, t: Table)
    requires Consistent(t)
    ensures Fold(Chain([Operand([u], a), Operand([], b)], [op]), t) ==
      Binary(Unary(u, Atom(a)), op, Atom(b))
  {
    var e := Binary(Unary(u, Atom(a)), op, Atom(b));
    assert IsChainExpr(Unary(u, Atom(a)));
    assert [u] + [] == [u];
    assert Flatten(Unary(u, Atom(a))) == Chain([Operand([u], a)], []);
    assert Flatten(e) == Chain([Operand([u], a), Operand([], b)], [op]);
    FoldUnique(e, t);
  }

  // ---------------------------------------------------------------------
  // Conditionals
  // ---------------------------------------------------------------------

  /** `cond ? consequence :` — the consequence sits between `?` and `:` and is folded on its own. */
  datatype Arm = Arm(cond: Chain, consequence: Expr)

  predicate ValidArms(arms: seq<Arm>)
  {
    forall i :: 0 <= i < |arms| ==> ValidChain(arms[i].cond)
  }

  /** `arms[0] arms[1] ... last`, grouped rightward as `prec.right` demands. */
  function FoldTernary(arms: seq<Arm>, last: Chain, t: Table): (e: Expr)
    requires ValidArms(arms) && ValidChain(last)
    ensures arms == [] <==> !e.Ternary?
    decreases |arms|
  {
    if arms == [] then Fold(last, t)
    else Ternary(Fold(arms[0].cond, t), arms[0].consequence, FoldTernary(arms[1..], last, t))
  }

  /** A tree whose conditionals sit on the right spine, each with a chain condition. */
  predicate IsTernaryLevel(e: Expr)
  {
    if e.Ternary? then IsChainExpr(e.cond) && IsTernaryLevel(e.alternative) else IsChainExpr(e)
  }

  /** The arms and final chain of such a tree, left to right. */
  function FlattenTernary(e: Expr): (r: (seq<Arm>, Chain))
    requires IsTernaryLevel(e)
    ensures ValidArms(r.0) && ValidChain(r.1)
  {
    if e.Ternary? then
      var rest := FlattenTernary(e.alternative);
      ([Arm(Flatten(e.cond), e.consequence)] + rest.0, rest.1)
    else ([], Flatten(e))
  }

  /** A well-precedenced tree has its conditionals on the right spine. */
  lemma {:induction false} WellPrecTernaryLevel(e: Expr, t: Table)
    requires WellPrec(e, t)
    ensures IsTernaryLevel(e)
  {
    if e.Ternary? {
      WellPrecChain(e.cond, t);
      WellPrecTernaryLevel(e.alternative, t);
    } else {
      WellPrecChain(e, t);
    }
  }

  /** Folding conditionals keeps their parts in order. */
  lemma {:induction false} FoldTernaryFlatten(arms: seq<Arm>, last: Chain, t: Table)
    requires ValidArms(arms) && ValidChain(last)
    ensures IsTernaryLevel(FoldTernary(arms, last, t))
    ensures FlattenTernary(FoldTernary(arms, last, t)) == (arms, last)
    decreases |arms|
  {
    if arms == [] {
      FoldFlatten(last, t);
    } else {
      FoldTernaryFlatten(arms[1..], last, t);
      FoldFlatten(arms[0].cond, t);
      assert [arms[0]] + arms[1..] == arms;
    }
  }

  /** The folded conditional follows the table when its consequences do. */
  lemma {:induction false} FoldTernaryWellPrec(arms: seq<Arm>, last: Chain, t: Table)
    requires Consistent(t)
    requires ValidArms(arms) && ValidChain(last)
    requires forall i :: 0 <= i < |arms| ==> WellPrec(arms[i].consequence, t)
    ensures WellPrec(FoldTernary(arms, last, t), t)
    decreases |arms|
  {
    if arms == [] {
      FoldWellPrec(last, t);
    } else {
      FoldWellPrec(arms[0].cond, t);
      FoldTernaryWellPrec(arms[1..], last, t);
    }
  }

  /** A well-precedenced tree is the fold of its own conditional parts. */
  lemma {:induction false} FoldTernaryUnique(e: Expr, t: Table)
    requires Consistent(t)
    requires WellPrec(e, t)
    ensures IsTernaryLevel(e)
    ensures FoldTernary(FlattenTernary(e).0, FlattenTernary(e).1, t) == e
  {
    WellPrecTernaryLevel(e, t);
    if e.Ternary? {
      WellPrecChain(e.cond, t);
      FoldUnique(e.cond, t);
      FoldTernaryUnique(e.alternative, t);
      var r := FlattenTernary(e);
      assert r.0[1..] == FlattenTernary(e.alternative).0;
    } else {
      WellPrecChain(e, t);
      FoldUnique(e, t);
    }
  }

  /** `a ? b : c ? d : e` is `a ? b : (c ? d : e)`, and `a + b ? c : d` is `(a + b) ? c : d`. */
  lemma TernaryExamples()
    ensures FoldTernary([Arm(Chain([Operand([], 0)], []), Atom(1)), Arm(Chain([Operand([], 2)], []), Atom(3))],
                        Chain([Operand([], 4)], []), Grammar) ==
      Ternary(Atom(0), Atom(1), Ternary(Atom(2), Atom(3), Atom(4)))
    ensures FoldTernary([Arm(Chain([Operand([], 0), Operand([], 1)], [Add]), Atom(2))],
                        Chain([Operand([], 3)], []), Grammar) ==
      Ternary(Binary(Atom(0), Add, Atom(1)), Atom(2), Atom(3))
  {
    GrammarConsistent();
    FoldTernaryUnique(Ternary(Atom(0), Atom(1), Ternary(Atom(2), Atom(3), Atom(4))), Grammar);
    FoldTernaryUnique(Ternary(Binary(Atom(0), Add, Atom(1)), Atom(2), Atom(3)), Grammar);
  }
}
