/** Filter expressions (src/library/expr.c): the grammar, the parser that builds the tree, and evaluation.  Trees are
    values; a missing child is `Null`. */
module Expr {

  datatype CmpOp = Lt | Le | Eq | Ge | Gt | Ne
  datatype BoolOp = And | Or

  datatype Token =
    | TNot | TCmp(op: CmpOp) | TAnd | TOr | TLParen | TRParen
    | TKey(str: string) | TIntOrKey(str: string) | TStr(str: string)

  /** What a leaf compares its key with. */
  datatype Operand = NoOperand | StrOperand(op: CmpOp, str: string) | IntOperand(op: CmpOp, digits: string)
                   | KeyOperand(op: CmpOp, other: string)

  datatype Expr =
    | Null
    | Leaf(key: string, operand: Operand)
    | Not(left: Expr)
    | Binary(op: BoolOp, left: Expr, right: Expr)
  {
    function Right(): Expr { if Binary? then right else Null }
  }

  predicate Complete(e: Expr) {
    match e
    case Null => false
    case Leaf(_, _) => true
    case Not(l) => Complete(l)
    case Binary(_, l, r) => Complete(l) && Complete(r)
  }

  // ---- the grammar ----

  /** An operand of `&` and `|`, as it is written. */
  datatype Unit =
    | UNot(unit: Unit)
    | UParen(first: Unit, rest: Chain)
    | UBool(key: Token)
    | UCompare(key: Token, op: CmpOp, rhs: Token)

  /** What may follow an operand: operators and further operands. */
  datatype Chain = End | More(op: BoolOp, unit: Unit, rest: Chain)

  predicate IsKey(t: Token) { t.TKey? || t.TIntOrKey? }

  predicate Comparable(op: CmpOp, rhs: Token) {
    IsKey(rhs) || (rhs.TStr? && (op == Eq || op == Ne))
  }

  predicate WfUnit(u: Unit) {
    match u
    case UNot(v) => WfUnit(v)
    case UParen(v, c) => WfUnit(v) && WfChain(c)
    case UBool(k) => IsKey(k)
    case UCompare(k, op, rhs) => IsKey(k) && Comparable(op, rhs)
  }

  predicate WfChain(c: Chain) {
    match c
    case End => true
    case More(_, u, d) => WfUnit(u) && WfChain(d)
  }

  function Written(op: BoolOp): Token { if op == And then TAnd else TOr }

  function RenderUnit(u: Unit): seq<Token> {
    match u
    case UNot(v) => [TNot] + RenderUnit(v)
    case UParen(v, c) => [TLParen] + (RenderUnit(v) + (RenderChain(c) + [TRParen]))
    case UBool(k) => [k]
    case UCompare(k, op, rhs) => [k, TCmp(op), rhs]
  }

  function RenderChain(c: Chain): seq<Token> {
    match c
    case End => []
    case More(op, u, d) => [Written(op)] + (RenderUnit(u) + RenderChain(d))
  }

  function LeafOf(key: Token, op: CmpOp, rhs: Token): Expr
    requires IsKey(key) && (IsKey(rhs) || rhs.TStr?)
  {
    Leaf(key.str, match rhs
                  case TStr(s) => StrOperand(op, s)
                  case TIntOrKey(s) => IntOperand(op, s)
                  case _ => KeyOperand(op, rhs.str))
  }

  /** The tree of an operand: `!` and parentheses bind as units. */
  function BuildUnit(u: Unit): Expr
    requires WfUnit(u)
  {
    match u
    case UNot(v) => Not(BuildUnit(v))
    case UParen(v, c) => BuildChain(BuildUnit(v), c)
    case UBool(k) => Leaf(k.str, NoOperand)
    case UCompare(k, op, rhs) => LeafOf(k, op, rhs)
  }

  /** Operators associate to the left and have no precedence. */
  function BuildChain(root: Expr, c: Chain): Expr
    requires WfChain(c)
    decreases c
  {
    match c
    case End => root
    case More(op, u, d) => BuildChain(Binary(op, root, BuildUnit(u)), d)
  }

  /** `ts` is written as operand `u` followed by `c`. */
  ghost predicate Spells(u: Unit, c: Chain, ts: seq<Token>) {
    WfUnit(u) && WfChain(c) && ts == RenderUnit(u) + RenderChain(c)
  }

  // ---- the parser as a function of the tokens left ----

  datatype Parsed = Fail | Done(expr: Expr, rest: seq<Token>)

  function ParsedOne(ts: seq<Token>): (r: Parsed)
    ensures r.Done? ==> |r.rest| < |ts|
    decreases |ts|, 0
  {
    if ts == [] then Fail
    else match ts[0]
         case TNot => (match ParsedOne(ts[1..]) case Fail => Fail case Done(e, rest) => Done(Not(e), rest))
         case TLParen => ParsedAll(ts[1..], true)
         case TKey(_) => ParsedKey(ts)
         case TIntOrKey(_) => ParsedKey(ts)
         case _ => Fail
  }

  function ParsedKey(ts: seq<Token>): (r: Parsed)
    requires ts != [] && IsKey(ts[0])
    ensures r.Done? ==> |r.rest| < |ts|
  {
    if |ts| == 1 || !ts[1].TCmp? then Done(Leaf(ts[0].str, NoOperand), ts[1..])
    else if |ts| > 2 && Comparable(ts[1].op, ts[2]) then Done(LeafOf(ts[0], ts[1].op, ts[2]), ts[3..])
    else Fail
  }

  function ParsedAll(ts: seq<Token>, nested: bool): (r: Parsed)
    ensures r.Done? ==> |r.rest| < |ts|
    decreases |ts|, 1
  {
    match ParsedOne(ts) case Fail => Fail case Done(e, rest) => ParsedRest(e, rest, nested)
  }

  function ParsedRest(root: Expr, ts: seq<Token>, nested: bool): (r: Parsed)
    ensures r.Done? ==> |r.rest| <= |ts|
    decreases |ts|, 1
  {
    if ts == [] then (if nested then Fail else Done(root, []))
    else match ts[0]
         case TRParen => if nested then Done(root, ts[1..]) else Fail
         case TAnd =>
           (match ParsedOne(ts[1..])
            case Fail => Fail
            case Done(e, rest) => ParsedRest(Binary(And, root, e), rest, nested))
         case TOr =>
           (match ParsedOne(ts[1..])
            case Fail => Fail
            case Done(e, rest) => ParsedRest(Binary(Or, root, e), rest, nested))
         case _ => Fail
  }

  // ---- it accepts exactly the grammar ----

  lemma Cons<T>(x: T, a: seq<T>, b: seq<T>)
    ensures (([x] + a) + b)[0] == x && (([x] + a) + b)[1..] == a + b && [x] + (a + b) == ([x] + a) + b
  {
  }

  lemma Assoc<T>(a: seq<T>, b: seq<T>, c: seq<T>)
    ensures (a + b) + c == a + (b + c)
  {
  }

  lemma HeadTail<T>(s: seq<T>)
    requires s != []
    ensures s == [s[0]] + s[1..]
  {
  }

  /** The end of a chain: `)` inside parentheses, the end of the tokens outside. */
  predicate Ends(tail: seq<Token>, rest: seq<Token>, nested: bool) {
    if nested then tail != [] && tail[0] == TRParen && tail[1..] == rest else tail == [] && rest == []
  }

  lemma {:induction false} ParsesUnit(u: Unit, rest: seq<Token>)
    requires WfUnit(u) && (rest == [] || !rest[0].TCmp?)
    ensures ParsedOne(RenderUnit(u) + rest) == Done(BuildUnit(u), rest)
    decreases u, 1
  {
    match u
    case UNot(v) =>
      var vs := RenderUnit(v);
      Cons(TNot, vs, rest);
      ParsesUnit(v, rest);
    case UParen(_, _) => ParsesParen(u, rest);
    case UBool(k) => Cons(k, [], rest); assert [] + rest == rest;
    case UCompare(k, op, rhs) => assert (RenderUnit(u) + rest)[3..] == rest;
  }

  lemma {:induction false} ParsesParen(u: Unit, rest: seq<Token>)
    requires u.UParen? && WfUnit(u)
    ensures ParsedOne(RenderUnit(u) + rest) == Done(BuildUnit(u), rest)
    decreases u, 0
  {
    var v, c := u.first, u.rest;
    var cs, vs, tail := RenderChain(c), RenderUnit(v), [TRParen] + rest;
    assert tail[1..] == rest;
    ChainHead(c, tail);
    ParsesUnit(v, cs + tail);
    ParsesChain(BuildUnit(v), c, tail, rest, true);
    Cons(TLParen, vs + (cs + [TRParen]), rest);
    Assoc(vs, cs + [TRParen], rest);
    Assoc(cs, [TRParen], rest);
  }

  lemma ChainHead(c: Chain, tail: seq<Token>)
    requires tail == [] || !tail[0].TCmp?
    ensures var ts := RenderChain(c) + tail; ts == [] || !ts[0].TCmp?
  {
    if c.More? {
      Cons(Written(c.op), RenderUnit(c.unit) + RenderChain(c.rest), tail);
    } else {
      assert [] + tail == tail;
    }
  }

  lemma {:induction false} ParsesChain(root: Expr, c: Chain, tail: seq<Token>, rest: seq<Token>, nested: bool)
    requires WfChain(c) && Ends(tail, rest, nested)
    ensures ParsedRest(root, RenderChain(c) + tail, nested) == Done(BuildChain(root, c), rest)
    decreases c
  {
    match c
    case End => assert RenderChain(c) + tail == tail;
    case More(op, u, d) =>
      var us, ds := RenderUnit(u), RenderChain(d);
      Cons(Written(op), us + ds, tail);
      Assoc(us, ds, tail);
      ChainHead(d, tail);
      ParsesUnit(u, ds + tail);
      ParsesChain(Binary(op, root, BuildUnit(u)), d, tail, rest, nested);
  }

  lemma {:induction false} OnlyUnits(ts: seq<Token>) returns (u: Unit)
    requires ParsedOne(ts).Done?
    ensures WfUnit(u) && ts == RenderUnit(u) + ParsedOne(ts).rest && ParsedOne(ts).expr == BuildUnit(u)
    decreases |ts|, 0
  {
    HeadTail(ts);
    match ts[0]
    case TNot =>
      var v := OnlyUnits(ts[1..]);
      u := UNot(v);
      Cons(TNot, RenderUnit(v), ParsedOne(ts[1..]).rest);
    case TLParen => u := OnlyParens(ts);
    case _ => u := OnlyKeys(ts);
  }

  lemma OnlyKeys(ts: seq<Token>) returns (u: Unit)
    requires ts != [] && IsKey(ts[0]) && ParsedKey(ts).Done?
    ensures WfUnit(u) && ts == RenderUnit(u) + ParsedKey(ts).rest && ParsedKey(ts).expr == BuildUnit(u)
  {
    if |ts| == 1 || !ts[1].TCmp? {
      u := UBool(ts[0]);
    } else {
      u := UCompare(ts[0], ts[1].op, ts[2]);
    }
  }

  lemma {:induction false} OnlyParens(ts: seq<Token>) returns (u: Unit)
    requires ts != [] && ts[0] == TLParen && ParsedAll(ts[1..], true).Done?
    ensures WfUnit(u) && ts == RenderUnit(u) + ParsedAll(ts[1..], true).rest
            && ParsedAll(ts[1..], true).expr == BuildUnit(u)
    decreases |ts| - 1, 1
  {
    var r := ParsedOne(ts[1..]);
    var v := OnlyUnits(ts[1..]);
    var c, tail := OnlyChains(r.expr, r.rest, true);
    u := UParen(v, c);
    var cs, vs, rest := RenderChain(c), RenderUnit(v), tail[1..];
    HeadTail(ts);
    HeadTail(tail);
    Cons(TLParen, vs + (cs + [TRParen]), rest);
    Assoc(vs, cs + [TRParen], rest);
    Assoc(cs, [TRParen], rest);
  }

  lemma {:induction false} OnlyChains(root: Expr, ts: seq<Token>, nested: bool) returns (c: Chain, tail: seq<Token>)
    requires ParsedRest(root, ts, nested).Done?
    ensures var r := ParsedRest(root, ts, nested);
            WfChain(c) && r.expr == BuildChain(root, c) && ts == RenderChain(c) + tail && Ends(tail, r.rest, nested)
    decreases |ts|, 1
  {
    if ts == [] || ts[0].TRParen? {
      c, tail := End, ts;
      assert [] + ts == ts;
    } else {
      var op := if ts[0].TAnd? then And else Or;
      var u := OnlyUnits(ts[1..]);
      var one := ParsedOne(ts[1..]);
      var d;
      d, tail := OnlyChains(Binary(op, root, one.expr), one.rest, nested);
      c := More(op, u, d);
      HeadTail(ts);
      Cons(Written(op), RenderUnit(u) + RenderChain(d), tail);
      Assoc(RenderUnit(u), RenderChain(d), tail);
    }
  }

  /** Outside parentheses exactly the sentences of the grammar parse, each to its own tree. */
  lemma ParsesExactly(ts: seq<Token>, e: Expr)
    ensures ParsedAll(ts, false) == Done(e, [])
            <==> exists u, c :: Spells(u, c, ts) && e == BuildChain(BuildUnit(u), c)
  {
    if ParsedAll(ts, false) == Done(e, []) {
      var u := OnlyUnits(ts);
      var r := ParsedOne(ts);
      var c, tail := OnlyChains(r.expr, r.rest, false);
      assert RenderChain(c) + [] == RenderChain(c);
      assert Spells(u, c, ts);
    }
    if u, c :| Spells(u, c, ts) && e == BuildChain(BuildUnit(u), c) {
      assert RenderChain(c) + [] == RenderChain(c);
      ChainHead(c, []);
      ParsesUnit(u, RenderChain(c));
      ParsesChain(BuildUnit(u), c, [], [], false);
    }
  }

  lemma {:induction false} ParsedComplete(ts: seq<Token>)
    requires ParsedOne(ts).Done?
    ensures Complete(ParsedOne(ts).expr)
    decreases |ts|, 0
  {
    match ts[0]
    case TNot => ParsedComplete(ts[1..]);
    case TLParen =>
      ParsedComplete(ts[1..]);
      RestComplete(ParsedOne(ts[1..]).expr, ParsedOne(ts[1..]).rest, true);
    case _ =>
  }

  lemma {:induction false} RestComplete(root: Expr, ts: seq<Token>, nested: bool)
    requires ParsedRest(root, ts, nested).Done? && Complete(root)
    ensures Complete(ParsedRest(root, ts, nested).expr)
    decreases |ts|, 1
  {
    if ts != [] && !ts[0].TRParen? {
      ParsedComplete(ts[1..]);
      var one := ParsedOne(ts[1..]);
      RestComplete(Binary(if ts[0].TAnd? then And else Or, root, one.expr), one.rest, nested);
    }
  }

  // ---- evaluation ----

  function Eval(e: Expr, holds: (string, Operand) -> bool): bool {
    match e
    case Null => false
    case Leaf(key, operand) => holds(key, operand)
    case Not(l) => !Eval(l, holds)
    case Binary(And, l, r) => Eval(l, holds) && Eval(r, holds)
    case Binary(Or, l, r) => Eval(l, holds) || Eval(r, holds)
  }

  /** expr_is_harmless, of which src/library/expr.h promises that results only shrink when text is put around it. */
  predicate Harmless(e: Expr) {
    match e
    case Not(_) => false
    case Binary(Or, _, _) => false
    case Binary(And, _, r) => HarmlessLeaf(r)
    case _ => HarmlessLeaf(e)
  }

  predicate HarmlessLeaf(e: Expr) {
    e.Leaf? ==> match e.operand
                case IntOperand(op, _) => op != Lt && op != Eq && op != Le
                case KeyOperand(_, _) => false
                case _ => true
  }

  /** The operands of a chain taken in from the left, one after the other. */
  function Folded(value: bool, c: Chain, holds: (string, Operand) -> bool): bool
    requires WfChain(c)
    decreases c
  {
    match c
    case End => value
    case More(op, u, d) =>
      var operand := UnitValue(u, holds);
      Folded(if op == And then value && operand else value || operand, d, holds)
  }

  function UnitValue(u: Unit, holds: (string, Operand) -> bool): bool
    requires WfUnit(u)
    decreases u
  {
    match u
    case UNot(v) => !UnitValue(v, holds)
    case UParen(v, c) => Folded(UnitValue(v, holds), c, holds)
    case UBool(k) => holds(k.str, NoOperand)
    case UCompare(k, op, TStr(s)) => holds(k.str, StrOperand(op, s))
    case UCompare(k, op, TIntOrKey(s)) => holds(k.str, IntOperand(op, s))
    case UCompare(k, op, rhs) => holds(k.str, KeyOperand(op, rhs.str))
  }

  /** Evaluating the tree of a chain is the fold of its operand values from the left. */
  lemma {:induction false} EvalChain(root: Expr, c: Chain, holds: (string, Operand) -> bool)
    requires WfChain(c)
    ensures Eval(BuildChain(root, c), holds) == Folded(Eval(root, holds), c, holds)
    decreases c
  {
    match c
    case End =>
    case More(op, u, d) =>
      EvalUnit(u, holds);
      EvalChain(Binary(op, root, BuildUnit(u)), d, holds);
  }

  lemma {:induction false} EvalUnit(u: Unit, holds: (string, Operand) -> bool)
    requires WfUnit(u)
    ensures Eval(BuildUnit(u), holds) == UnitValue(u, holds)
    decreases u
  {
    match u
    case UNot(v) => EvalUnit(v, holds);
    case UParen(v, c) => EvalUnit(v, holds); EvalChain(BuildUnit(v), c, holds);
    case _ =>
  }

  // ---- sentences that go on ----

  function Followed(c: Chain, d: Chain): Chain {
    match c
    case End => d
    case More(op, u, rest) => More(op, u, Followed(rest, d))
  }

  predicate AndsOnly(c: Chain) { c.More? ==> c.op == And && AndsOnly(c.rest) }

  /** Written on, a sentence is the old one and more. */
  lemma {:induction false} FollowedWritten(c: Chain, d: Chain)
    requires WfChain(c) && WfChain(d)
    ensures WfChain(Followed(c, d)) && RenderChain(Followed(c, d)) == RenderChain(c) + RenderChain(d)
  {
    match c
    case End => assert [] + RenderChain(d) == RenderChain(d);
    case More(op, u, rest) =>
      FollowedWritten(rest, d);
      Reassociate([Written(op)], RenderUnit(u), RenderChain(rest), RenderChain(d));
  }

  lemma Reassociate(a: seq<Token>, b: seq<Token>, c: seq<Token>, d: seq<Token>)
    ensures a + (b + (c + d)) == (a + (b + c)) + d
  {
  }

  lemma {:induction false} FoldedOn(value: bool, c: Chain, d: Chain, holds: (string, Operand) -> bool)
    requires WfChain(c) && WfChain(d)
    ensures WfChain(Followed(c, d)) && Folded(value, Followed(c, d), holds) == Folded(Folded(value, c, holds), d, holds)
    decreases c
  {
    match c
    case End =>
    case More(op, u, rest) =>
      var operand := UnitValue(u, holds);
      FoldedOn(if op == And then value && operand else value || operand, rest, d, holds);
  }

  lemma {:induction false} AndsFold(value: bool, d: Chain, holds: (string, Operand) -> bool)
    requires WfChain(d) && AndsOnly(d) && Folded(value, d, holds)
    ensures value
    decreases d
  {
    match d
    case End =>
    case More(op, u, rest) => AndsFold(value && UnitValue(u, holds), rest, holds);
  }

  /** A sentence written on with `&` alone says no more than before. */
  lemma AndsShrink(u: Unit, c: Chain, d: Chain, holds: (string, Operand) -> bool)
    requires WfUnit(u) && WfChain(c) && WfChain(d) && AndsOnly(d)
    ensures WfChain(Followed(c, d))
    ensures Eval(BuildChain(BuildUnit(u), Followed(c, d)), holds) ==> Eval(BuildChain(BuildUnit(u), c), holds)
  {
    FollowedWritten(c, d);
    EvalUnit(u, holds);
    EvalChain(BuildUnit(u), c, holds);
    EvalChain(BuildUnit(u), Followed(c, d), holds);
    FoldedOn(UnitValue(u, holds), c, d, holds);
    if Folded(Folded(UnitValue(u, holds), c, holds), d,
              holds) { AndsFold(Folded(UnitValue(u, holds), c, holds), d, holds); }
  }

  // ---- the code ----

  /** What the next operand makes of the tree so far: the whole tree, or the right side of its top operator. */
  function Filled(root: Expr, e: Expr): Expr {
    match root
    case Binary(op, l, Null) => Binary(op, l, e)
    case _ => e
  }

  /** The tree so far waits for an operand. */
  predicate Open(root: Expr) { root.Null? || (root.Binary? && Complete(root.left) && root.right.Null?) }

  /** add.  Its BUG_ON, an operand added to a complete tree, is the assertion. */
  method Add(root: Expr, expr: Expr) returns (root': Expr)
    requires (Open(root) && Complete(expr)) || (Complete(root) && expr.Binary? && expr.left.Null? && expr.right.Null?)
    ensures Open(root) && Complete(expr) ==> root' == Filled(root, expr) && Complete(root')
    ensures Complete(root) ==> expr.Binary? && root' == Binary(expr.op, root, Null) && Open(root')
  {
    if root.Null? { return expr; }
    var tmp := root;
    while !tmp.Right().Null?
      invariant !tmp.Null? && (tmp == root || Complete(tmp)) && (Complete(root) ==> Complete(tmp))
      invariant Open(root) ==> tmp == root
      decreases tmp
    {
      tmp := tmp.right;
    }
    if tmp.Binary? {
      // only the root can be incomplete
      assert tmp == root;
      return root.(right := expr);
    }
    assert expr.Binary?;
    root' := expr.(left := root);
  }

  /** parse_one, on the tokens from place `i` on. */
  method ParseOne(ts: seq<Token>, i: nat) returns (ok: bool, e: Expr, next: nat)
    requires i <= |ts|
    ensures if ok then i < next <= |ts| && ParsedOne(ts[i..]) == Done(e, ts[next..]) && Complete(e)
            else ParsedOne(ts[i..]) == Fail
    decreases |ts| - i, 0
  {
    ok, e, next := false, Null, i;
    if i == |ts| { return; }
    match ts[i] {
      case TNot =>
        assert ts[i..][1..] == ts[i + 1..];
        var inner;
        ok, inner, next := ParseOne(ts, i + 1);
        e := Not(inner);
      case TLParen =>
        assert ts[i..][1..] == ts[i + 1..];
        ok, e, next := Parse(ts, i + 1, 1);
      case TKey(_) => ok, e, next := ParseKey(ts, i);
      case TIntOrKey(_) => ok, e, next := ParseKey(ts, i);
      case _ =>
    }
  }

  method ParseKey(ts: seq<Token>, i: nat) returns (ok: bool, e: Expr, next: nat)
    requires i < |ts| && IsKey(ts[i])
    ensures if ok then i < next <= |ts| && ParsedKey(ts[i..]) == Done(e, ts[next..]) && Complete(e)
            else ParsedKey(ts[i..]) == Fail
  {
    ok, e, next := false, Null, i;
    var key, item := ts[i], i + 1;
    ghost var rest := ts[i..];
    if item == |ts| || !ts[item].TCmp? {
      assert rest[1..] == ts[item..];
      return true, Leaf(key.str, NoOperand), item;
    }
    var op := ts[item].op;
    item := item + 1;
    if item == |ts| { return; }
    assert rest[1].TCmp? && rest[2] == ts[item] && rest[3..] == ts[item + 1..];
    match ts[item] {
      case TStr(s) =>
        if op != Eq && op != Ne { return; }
        return true, Leaf(key.str, StrOperand(op, s)), item + 1;
      case TIntOrKey(s) => return true, Leaf(key.str, IntOperand(op, s)), item + 1;
      case TKey(s) => return true, Leaf(key.str, KeyOperand(op, s)), item + 1;
      case _ =>
    }
  }

  /** parse. */
  method Parse(ts: seq<Token>, i: nat, level: nat) returns (ok: bool, root: Expr, next: nat)
    requires i <= |ts|
    ensures if ok then i < next <= |ts| && ParsedAll(ts[i..], level > 0) == Done(root, ts[next..]) && Complete(root)
            else ParsedAll(ts[i..], level > 0) == Fail
    decreases |ts| - i, 1
  {
    root, next := Null, i;
    ghost var all := ParsedAll(ts[i..], level > 0);
    while true
      invariant i <= next <= |ts| && Open(root)
      invariant all == ParsedFrom(root, ts[next..], level > 0)
      decreases |ts| - next
    {
      var e, item;
      ok, e, item := ParseOne(ts, next);
      if !ok { return; }
      root := Add(root, e);
      next := item;
      assert all == ParsedRest(root, ts[next..], level > 0);
      if next == |ts| {
        ok := level == 0;
        return;
      }
      assert ts[next..][1..] == ts[next + 1..];
      if ts[next].TRParen? {
        ok := level > 0;
        next := next + 1;
        return;
      }
      var op;
      if ts[next].TAnd? {
        op := And;
      } else if ts[next].TOr? {
        op := Or;
      } else {
        return false, root, next;
      }
      root := Add(root, Binary(op, Null, Null));
      next := next + 1;
    }
  }

  function ParsedFrom(root: Expr, ts: seq<Token>, nested: bool): Parsed {
    match ParsedOne(ts) case Fail => Fail case Done(e, rest) => ParsedRest(Filled(root, e), rest, nested)
  }

  /** The parsing part of expr_parse_i. */
  method ParseTokens(ts: seq<Token>) returns (r: Expr)
    ensures Complete(r) <==> exists u, c :: Spells(u, c, ts)
    ensures Complete(r) ==> exists u, c :: Spells(u, c, ts) && r == BuildChain(BuildUnit(u), c)
    ensures r == Tree(ts)
  {
    var ok, root, next := Parse(ts, 0, 0);
    assert ts[0..] == ts;
    if ok {
      assert ParsedAll(ts, false).rest == [] by { RestEnds(ParsedOne(ts).expr, ParsedOne(ts).rest); }
      ParsesExactly(ts, root);
      return root;
    }
    if u, c :| Spells(u, c, ts) { ParsesExactly(ts, BuildChain(BuildUnit(u), c)); }
    return Null;
  }

  lemma {:induction false} RestEnds(root: Expr, ts: seq<Token>)
    requires ParsedRest(root, ts, false).Done?
    ensures ParsedRest(root, ts, false).rest == []
  {
    var c, tail := OnlyChains(root, ts, false);
  }

  /** The tree of a filter text, `Null` when it does not parse. */
  function Tree(ts: seq<Token>): Expr {
    match ParsedAll(ts, false) case Fail => Null case Done(e, _) => e
  }
}
