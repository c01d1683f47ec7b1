/** Filter expressions while they are typed: what expr_is_harmless (src/library/expr.c) means.  src/library/expr.h
    promises that the results of a harmless expression only shrink when characters are added. */
module Typing {
  import opened Common
  import opened Expr

  // ---- another operand ----

  lemma {:induction false} BuildOneMore(root: Expr, c: Chain, op: BoolOp, v: Unit)
    requires WfChain(c) && WfUnit(v)
    ensures WfChain(Followed(c, More(op, v, End)))
    ensures BuildChain(root, Followed(c, More(op, v, End))) == Binary(op, BuildChain(root, c), BuildUnit(v))
    decreases c
  {
    match c
    case End =>
    case More(o, u, rest) => BuildOneMore(Binary(o, root, BuildUnit(u)), rest, op, v);
  }

  /** When one more operator and operand make a harmless expression, it says no more than the one before. */
  lemma HarmlessShrinks(root: Expr, c: Chain, op: BoolOp, v: Unit, holds: (string, Operand) -> bool)
    requires WfChain(c) && WfUnit(v) && WfChain(Followed(c, More(op, v, End)))
    requires Harmless(BuildChain(root, Followed(c, More(op, v, End))))
    ensures Eval(BuildChain(root, Followed(c, More(op, v, End))), holds) ==> Eval(BuildChain(root, c), holds)
  {
    BuildOneMore(root, c, op, v);
  }

  /** An operand behind `|` lets everything through that it says itself. */
  lemma OrGains(root: Expr, c: Chain, v: Unit, holds: (string, Operand) -> bool)
    requires WfChain(c) && WfUnit(v) && WfChain(Followed(c, More(Or, v, End)))
    ensures Eval(BuildUnit(v), holds) ==> Eval(BuildChain(root, Followed(c, More(Or, v, End))), holds)
  {
    BuildOneMore(root, c, Or, v);
  }

  // ---- a longer operand ----

  predicate Compares(op: CmpOp, a: int, b: int) {
    match op
    case Lt => a < b
    case Le => a <= b
    case Eq => a == b
    case Ge => a >= b
    case Gt => a > b
    case Ne => a != b
  }

  /** A number in a tag, compared with a number that is written out; a tag that is not set compares with none. */
  predicate NumberHolds(op: CmpOp, tag: Option<int>, digits: string) { tag.Some?
      && Compares(op, tag.value, Value(digits)) }

  predicate Digits(s: string) { forall i :: 0 <= i < |s| ==> '0' <= s[i] <= '9' }

  function Value(digits: string): int {
    if digits == "" then 0
    else 10 * Value(digits[..|digits| - 1]) + (digits[|digits| - 1] as int - '0' as int)
  }

  /** A text in a tag: it contains what is written, or for `!=` does not. */
  ghost predicate TextHolds(op: CmpOp, text: string, s: string) { (op == Ne) != Contained(s, text) }

  ghost predicate Contained(s: string, text: string) { exists k :: StandsAt(s, text, k) }

  predicate StandsAt(s: string, text: string, k: int) { 0 <= k <= |text| - |s| && text[k..k + |s|] == s }

  /** Digits that are typed on let no number through that was not before. */
  ghost predicate NarrowsNumbers(op: CmpOp) {
    forall tag, digits, more ::
      Digits(digits) && Digits(more) && NumberHolds(op, tag, digits + more) ==> NumberHolds(op, tag, digits)
  }

  /** Characters put around a text let none through that was not before. */
  ghost predicate NarrowsTexts(op: CmpOp) {
    forall text, s, x: string, y: string :: TextHolds(op, text, x + s + y) ==> TextHolds(op, text, s)
  }

  lemma {:induction false} ValueNotNegative(s: string)
    requires Digits(s)
    ensures Value(s) >= 0
  {
    if s == "" {
    } else {
      ValueNotNegative(s[..|s| - 1]);
    }
  }

  lemma {:induction false} ValueGrows(s: string, more: string)
    requires Digits(s) && Digits(more)
    ensures Value(s) <= Value(s + more)
  {
    if more == "" {
      assert s + more == s;
    } else {
      var front := more[..|more| - 1];
      assert (s + more)[..|s + more| - 1] == s + front;
      ValueGrows(s, front);
      assert Digits(s + front);
      ValueNotNegative(s + front);
    }
  }

  lemma OneTen()
    ensures Digits("1") && Digits("0") && Value("1") == 1 && Value("1" + "0") == 10
  {
    assert "1"[..0] == "" && ("1" + "0")[..1] == "1";
  }

  lemma NumbersNarrow(op: CmpOp)
    ensures NarrowsNumbers(op) <==> op == Ge || op == Gt
  {
    if op == Ge || op == Gt {
      forall tag, digits, more | Digits(digits) && Digits(more) && NumberHolds(op, tag, digits + more)
        ensures NumberHolds(op, tag, digits)
      {
        ValueGrows(digits, more);
      }
    } else {
      OneTen();
      var tag := Some(if op == Eq then 10 else if op == Ne then 1 else 5);
      assert NumberHolds(op, tag, "1" + "0") && !NumberHolds(op, tag, "1");
    }
  }

  lemma Inside(x: string, s: string, y: string, text: string, k: int)
    requires StandsAt(x + s + y, text, k)
    ensures StandsAt(s, text, k + |x|)
  {
    var w, i := x + s + y, k + |x|;
    var t := text[k..k + |w|];
    forall q | 0 <= q < |s| ensures text[i + q] == s[q] {
      assert text[i + q] == t[|x| + q] == w[|x| + q];
    }
    assert text[i..i + |s|] == s;
  }

  lemma TextsNarrow(op: CmpOp)
    requires op == Eq || op == Ne
    ensures NarrowsTexts(op) <==> op == Eq
  {
    if op == Eq {
      forall text, s, x: string, y: string | TextHolds(op, text, x + s + y) ensures TextHolds(op, text, s) {
        var k :| StandsAt(x + s + y, text, k);
        Inside(x, s, y, text, k);
      }
    } else {
      assert StandsAt("a", "a", 0);
      assert !Contained("" + "a" + "b", "a");
      assert TextHolds(Ne, "a", "" + "a" + "b") && !TextHolds(Ne, "a", "a");
    }
  }

  /** A leaf is harmless iff a longer operand says no more, except that `!=` counts as harmless and is not; no short
      form has it. */
  lemma HarmlessNumber(key: string, op: CmpOp, digits: string)
    ensures Harmless(Leaf(key, IntOperand(op, digits))) <==> NarrowsNumbers(op) || op == Ne
  {
    NumbersNarrow(op);
  }

  lemma HarmlessText(key: string, op: CmpOp, s: string)
    requires op == Eq || op == Ne
    ensures Harmless(Leaf(key, StrOperand(op, s))) && (NarrowsTexts(op) <==> op != Ne)
  {
    TextsNarrow(op);
  }

  /** A longer key is another key and has any value `b'`; whatever the operator, one can pass that `b` did not. */
  lemma HarmlessKey(key: string, op: CmpOp, s: string)
    ensures !Harmless(Leaf(key, KeyOperand(op, s)))
    ensures exists a, b, b' :: Compares(op, a, b') && !Compares(op, a, b)
  {
    var a, b := 0, if op == Lt || op == Ne then 0 else if op == Gt then 1 else if op == Ge then 1 else -1;
    var b' := if op == Lt || op == Ne then 1 else if op == Gt then -1 else 0;
    assert Compares(op, a, b') && !Compares(op, a, b);
  }

  /** Behind `!` a longer operand says more. */
  lemma HarmlessNot(e: Expr)
    ensures !Harmless(Not(e))
    ensures exists text, s, more: string :: !TextHolds(Eq, text, s + more) && TextHolds(Eq, text, s)
  {
    assert StandsAt("a", "a", 0);
    assert !TextHolds(Eq, "a", "a" + "b") && TextHolds(Eq, "a", "a");
  }

  /** Behind `&` the last operand decides. */
  lemma HarmlessAnd(l: Expr, r: Expr)
    requires r.Leaf?
    ensures Harmless(Binary(And, l, r)) <==> Harmless(r)
  {
  }
}
