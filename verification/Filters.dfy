/** Named filters (src/library/filters.c, expr_check_leaves in src/library/expr.c): names in an expression are replaced
    by the expressions they stand for, and visited marks keep the replacement finite. */
module Filters {
  import opened Expr

  datatype Kind = User | StrKey | IntKey | BoolKey

  /** The keys every track has. */
  function Builtin(key: string): Kind {
    match key
    case "album" => StrKey case "albumartist" => StrKey case "artist" => StrKey case "bitrate" => IntKey
    case "bpm" => IntKey case "codec" => StrKey case "codec_profile" => StrKey case "comment" => StrKey
    case "date" => IntKey case "discnumber" => IntKey case "duration" => IntKey case "filename" => StrKey
    case "genre" => StrKey case "media" => StrKey case "originaldate" => IntKey case "play_count" => IntKey
    case "stream" => BoolKey case "tag" => BoolKey case "title" => StrKey case "tracknumber" => IntKey
    case _ => User
  }

  /** The operand has the type of the key.  A comparison of two keys has the type of none. */
  predicate Fits(kind: Kind, operand: Operand) {
    match kind
    case User => false
    case StrKey => operand.StrOperand?
    case IntKey => operand.IntOperand?
    case BoolKey => operand.NoOperand?
  }

  datatype Entry = Entry(name: string, filter: seq<Token>)

  /** The entry with that name, or their number if there is none. */
  function Find(fs: seq<Entry>, name: string): (i: nat)
    ensures i <= |fs| && (i < |fs| ==> fs[i].name == name)
    ensures forall j :: 0 <= j < i ==> fs[j].name != name
  { if fs == [] || fs[0].name == name then 0 else 1 + Find(fs[1..], name) }

  // ---- what expansion means ----

  /** `e'` is `e` with every name replaced, down to built-in keys; `used` are the entries read, in that order. */
  ghost predicate Expands(fs: seq<Entry>, e: Expr, used: seq<nat>, e': Expr)
    decreases |used|, e, 1
  {
    match e
    case Null => false
    case Leaf(key, operand) =>
      if Builtin(key) != User then Fits(Builtin(key), operand) && used == [] && e' == e
      else operand.NoOperand? && used != [] && used[0] == Find(fs, key) < |fs|
           && Expands(fs, Tree(fs[used[0]].filter), used[1..], e')
    case Not(l) => e'.Not? && Expands(fs, l, used, e'.left)
    case Binary(op, l, r) => e'.Binary? && e'.op == op && exists k :: Halves(fs, e, used, k, e')
  }

  ghost predicate Halves(fs: seq<Entry>, e: Expr, used: seq<nat>, k: nat, e': Expr)
    requires e.Binary? && e'.Binary?
    decreases |used|, e, 0
  {
    k <= |used| && Expands(fs, e.left, used[..k], e'.left) && Expands(fs, e.right, used[k..], e'.right)
  }

  /** There is at most one expansion. */
  lemma {:induction false} ExpandsOnce(fs: seq<Entry>, e: Expr, used: seq<nat>, e': Expr, used2: seq<nat>, e2: Expr)
    requires Expands(fs, e, used, e') && Expands(fs, e, used2, e2)
    ensures used == used2 && e' == e2
    decreases |used|, e
  {
    match e
    case Leaf(key, operand) =>
      if Builtin(key) == User {
        ExpandsOnce(fs, Tree(fs[used[0]].filter), used[1..], e', used2[1..], e2);
        assert used == [used[0]] + used[1..] && used2 == [used2[0]] + used2[1..];
      }
    case Not(l) => ExpandsOnce(fs, l, used, e'.left, used2, e2.left);
    case Binary(op, l, r) =>
      var k: nat :| Halves(fs, e, used, k, e');
      var k2: nat :| Halves(fs, e, used2, k2, e2);
      ExpandsOnce(fs, l, used[..k], e'.left, used2[..k2], e2.left);
      ExpandsOnce(fs, r, used[k..], e'.right, used2[k2..], e2.right);
      assert used == used[..k] + used[k..] && used2 == used2[..k2] + used2[k2..];
  }

  predicate OnlyBuiltin(e: Expr) {
    match e
    case Null => false
    case Leaf(key, operand) => Fits(Builtin(key), operand)
    case Not(l) => OnlyBuiltin(l)
    case Binary(_, l, r) => OnlyBuiltin(l) && OnlyBuiltin(r)
  }

  type Valuation = (string, Operand) -> bool

  /** Under `holds` the name of every entry read says what its expression says. */
  ghost predicate ReadsAsDefined(fs: seq<Entry>, used: seq<nat>, holds: Valuation) {
    forall i :: 0 <= i < |used| && used[i] < |fs| ==>
      holds(fs[used[i]].name, NoOperand) == Eval(Tree(fs[used[i]].filter), holds)
  }

  /** No name is left, and the meaning is that of the original with names read as their definitions. */
  lemma {:induction false} ExpandsMeans(fs: seq<Entry>, e: Expr, used: seq<nat>, e': Expr, holds: Valuation)
    requires Expands(fs, e, used, e') && ReadsAsDefined(fs, used, holds)
    ensures OnlyBuiltin(e') && Complete(e') && Eval(e', holds) == Eval(e, holds)
    decreases |used|, e
  {
    match e
    case Leaf(key, operand) =>
      if Builtin(key) == User {
        assert ReadsAsDefined(fs, used[1..], holds);
        ExpandsMeans(fs, Tree(fs[used[0]].filter), used[1..], e', holds);
      }
    case Not(l) => ExpandsMeans(fs, l, used, e'.left, holds);
    case Binary(op, l, r) =>
      var k: nat :| Halves(fs, e, used, k, e');
      assert ReadsAsDefined(fs, used[..k], holds) && ReadsAsDefined(fs, used[k..], holds);
      ExpandsMeans(fs, l, used[..k], e'.left, holds);
      ExpandsMeans(fs, r, used[k..], e'.right, holds);
  }

  /** An expression of built-in keys with operands of their types is its own expansion. */
  lemma {:induction false} BuiltinExpands(fs: seq<Entry>, e: Expr)
    requires OnlyBuiltin(e)
    ensures Expands(fs, e, [], e)
  {
    match e
    case Leaf(_, _) =>
    case Not(l) => BuiltinExpands(fs, l);
    case Binary(_, l, r) =>
      BuiltinExpands(fs, l);
      BuiltinExpands(fs, r);
      var none: seq<nat> := [];
      assert none[..0] == none[0..] == [];
      assert Halves(fs, e, none, 0, e);
  }

  // ---- such readings exist ----

  /** All names in `e` are among `used`. */
  ghost predicate NamesIn(fs: seq<Entry>, e: Expr, used: set<nat>) {
    match e
    case Null => true
    case Leaf(key, operand) => Builtin(key) == User && operand.NoOperand? ==>
      Find(fs, key) in used && Find(fs, key) < |fs|
    case Not(l) => NamesIn(fs, l, used)
    case Binary(_, l, r) => NamesIn(fs, l, used) && NamesIn(fs, r, used)
  }

  lemma {:induction false} NamesGrow(fs: seq<Entry>, e: Expr, used: set<nat>, more: set<nat>)
    requires NamesIn(fs, e, used) && used <= more
    ensures NamesIn(fs, e, more)
  {
    match e
    case Not(l) => NamesGrow(fs, l, used, more);
    case Binary(_, l, r) => NamesGrow(fs, l, used, more); NamesGrow(fs, r, used, more);
    case _ =>
  }

  function Set(s: seq<nat>): set<nat> { set x | x in s }

  /** The entries read are closed under the names they mention. */
  lemma {:induction false} UsedClosed(fs: seq<Entry>, e: Expr, used: seq<nat>, e': Expr)
    requires Expands(fs, e, used, e')
    ensures NamesIn(fs, e, Set(used))
    ensures forall i :: i in used ==>
            i < |fs| && NamesIn(fs, Tree(fs[i].filter), Set(used)) && Find(fs, fs[i].name) == i
    decreases |used|, e
  {
    match e
    case Leaf(key, operand) =>
      if Builtin(key) == User {
        var tree, rest := Tree(fs[used[0]].filter), used[1..];
        UsedClosed(fs, tree, rest, e');
        NamesGrow(fs, tree, Set(rest), Set(used));
        ClosedGrows(fs, rest, used);
        assert used == [used[0]] + rest;
      }
    case Not(l) => UsedClosed(fs, l, used, e'.left);
    case Binary(op, l, r) =>
      var k: nat :| Halves(fs, e, used, k, e');
      var a, b := used[..k], used[k..];
      assert used == a + b;
      UsedClosed(fs, l, a, e'.left);
      UsedClosed(fs, r, b, e'.right);
      NamesGrow(fs, l, Set(a), Set(used));
      NamesGrow(fs, r, Set(b), Set(used));
      ClosedGrows(fs, a, used);
      ClosedGrows(fs, b, used);
  }

  lemma ClosedGrows(fs: seq<Entry>, used: seq<nat>, more: seq<nat>)
    requires forall i :: i in used ==> i < |fs| && NamesIn(fs, Tree(fs[i].filter), Set(used))
    requires forall i :: i in used ==> i in more
    ensures forall i :: i in used ==> NamesIn(fs, Tree(fs[i].filter), Set(more))
  {
    forall i | i in used ensures NamesIn(fs, Tree(fs[i].filter), Set(more)) {
      NamesGrow(fs, Tree(fs[i].filter), Set(used), Set(more));
    }
  }

  /** The valuations differ at most at the names of `used`. */
  ghost predicate SameBut(fs: seq<Entry>, used: set<nat>, h: Valuation, h': Valuation) {
    forall key, operand :: h'(key, operand) == h(key, operand)
                           || (Builtin(key) == User && operand.NoOperand? && Find(fs, key) in used)
  }

  lemma {:induction false} EvalSame(fs: seq<Entry>, e: Expr, names: set<nat>, used: set<nat>, h: Valuation,
                                    h': Valuation)
    requires NamesIn(fs, e, names) && names !! used && SameBut(fs, used, h, h')
    ensures Eval(e, h') == Eval(e, h)
  {
    match e
    case Null =>
    case Leaf(key, operand) => assert h'(key, operand) == h(key, operand) || Find(fs, key) in used;
    case Not(l) => EvalSame(fs, l, names, used, h, h');
    case Binary(_, l, r) => EvalSame(fs, l, names, used, h, h'); EvalSame(fs, r, names, used, h, h');
  }

  predicate NoRepeat(used: seq<nat>) { forall i, j :: 0 <= i < j < |used| ==> used[i] != used[j] }

  /** From any valuation of the tracks' own keys a reading of the names as defined is made by changing names only. */
  lemma {:induction false} ReadingExists(fs: seq<Entry>, e: Expr, used: seq<nat>, e': Expr, base: Valuation)
    returns (holds: Valuation)
    requires Expands(fs, e, used, e') && NoRepeat(used)
    ensures ReadsAsDefined(fs, used, holds) && SameBut(fs, Set(used), base, holds)
    decreases |used|, e
  {
    holds := base;
    match e
    case Leaf(key, operand) =>
      if Builtin(key) == User {
        var i, rest := used[0], used[1..];
        var tree := Tree(fs[i].filter);
        var h := ReadingExists(fs, tree, rest, e', base);
        assert used == [i] + rest;
        holds := AddName(fs, i, rest, tree, e', base, h, key);
      }
    case Not(l) => holds := ReadingExists(fs, l, used, e'.left, base);
    case Binary(op, l, r) =>
      var k: nat :| Halves(fs, e, used, k, e');
      var a, b := used[..k], used[k..];
      assert used == a + b;
      var h := ReadingExists(fs, l, a, e'.left, base);
      holds := ReadingExists(fs, r, b, e'.right, h);
      JoinReadings(fs, l, a, b, e'.left, base, h, holds);
  }

  lemma AddName(fs: seq<Entry>, i: nat, rest: seq<nat>, tree: Expr, e': Expr, base: Valuation, h: Valuation,
                key: string) returns (holds: Valuation)
    requires i == Find(fs, key) < |fs| && Builtin(key) == User && tree == Tree(fs[i].filter) && NoRepeat([i] + rest)
    requires Expands(fs, tree, rest, e') && ReadsAsDefined(fs, rest, h) && SameBut(fs, Set(rest), base, h)
    ensures ReadsAsDefined(fs, [i] + rest, holds) && SameBut(fs, Set([i] + rest), base, holds)
  {
    var u := [i] + rest;
    UsedClosed(fs, tree, rest, e');
    assert i !in rest by { forall k | 0 <= k < |rest| ensures rest[k] != i { assert u[k + 1] != u[0]; } }
    holds := NameReads(fs, i, rest, tree, h);
    SameTwice(fs, Set(rest), {i}, Set(u), base, h, holds);
  }

  lemma JoinReadings(fs: seq<Entry>, l: Expr, a: seq<nat>, b: seq<nat>, l': Expr, base: Valuation, h: Valuation,
                     holds: Valuation)
    requires Expands(fs, l, a, l') && NoRepeat(a + b)
    requires ReadsAsDefined(fs, a, h) && SameBut(fs, Set(a), base, h)
    requires ReadsAsDefined(fs, b, holds) && SameBut(fs, Set(b), h, holds)
    ensures ReadsAsDefined(fs, a + b, holds) && SameBut(fs, Set(a + b), base, holds)
  {
    UsedClosed(fs, l, a, l');
    Disjoint(a, b);
    SameReading(fs, a, Set(b), h, holds);
    SameTwice(fs, Set(a), Set(b), Set(a + b), base, h, holds);
  }

  lemma Disjoint(a: seq<nat>, b: seq<nat>)
    requires NoRepeat(a + b)
    ensures Set(a) !! Set(b)
  {
    forall x | x in a && x in b ensures false { Twice(a, b, x); }
  }

  lemma Twice(a: seq<nat>, b: seq<nat>, x: nat)
    requires x in a && x in b
    ensures !NoRepeat(a + b)
  {
    var i :| 0 <= i < |a| && a[i] == x;
    var j :| 0 <= j < |b| && b[j] == x;
    assert (a + b)[i] == (a + b)[|a| + j];
  }

  /** One more name reads as its definition. */
  lemma NameReads(fs: seq<Entry>, i: nat, rest: seq<nat>, tree: Expr, h: Valuation) returns (holds: Valuation)
    requires i < |fs| && i !in rest && tree == Tree(fs[i].filter) && Find(fs, fs[i].name) == i
             && Builtin(fs[i].name) == User
    requires NamesIn(fs, tree, Set(rest)) && ReadsAsDefined(fs, rest, h)
    requires forall j :: j in rest ==>
             j < |fs| && NamesIn(fs, Tree(fs[j].filter), Set(rest)) && Find(fs, fs[j].name) == j
    ensures SameBut(fs, {i}, h, holds) && ReadsAsDefined(fs, [i] + rest, holds)
  {
    var key, value := fs[i].name, Eval(tree, h);
    holds := (k, o) => if k == key && o == NoOperand then value else h(k, o);
    assert SameBut(fs, {i}, h, holds);
    SameReading(fs, rest, {i}, h, holds);
    EvalSame(fs, tree, Set(rest), {i}, h, holds);
  }

  lemma SameTwice(fs: seq<Entry>, a: set<nat>, b: set<nat>, c: set<nat>, h: Valuation, h': Valuation, h'': Valuation)
    requires SameBut(fs, a, h, h') && SameBut(fs, b, h', h'') && a <= c && b <= c
    ensures SameBut(fs, c, h, h'')
  {
  }

  /** The expanded tree says of every track what the original says with names read as their definitions. */
  lemma ExpansionFaithful(fs: seq<Entry>, e: Expr, used: seq<nat>, e': Expr, base: Valuation) returns (holds: Valuation)
    requires Expands(fs, e, used, e') && NoRepeat(used)
    ensures ReadsAsDefined(fs, used, holds) && SameBut(fs, Set(used), base, holds)
    ensures OnlyBuiltin(e') && Eval(e', base) == Eval(e, holds)
  {
    holds := ReadingExists(fs, e, used, e', base);
    ExpandsMeans(fs, e, used, e', holds);
    BuiltinSame(fs, e', Set(used), base, holds);
  }

  lemma {:induction false} BuiltinSame(fs: seq<Entry>, e: Expr, used: set<nat>, h: Valuation, h': Valuation)
    requires OnlyBuiltin(e) && SameBut(fs, used, h, h')
    ensures Eval(e, h) == Eval(e, h')
  {
    match e
    case Leaf(key, operand) => assert h'(key, operand) == h(key, operand);
    case Not(l) => BuiltinSame(fs, l, used, h, h');
    case Binary(_, l, r) => BuiltinSame(fs, l, used, h, h'); BuiltinSame(fs, r, used, h, h');
  }

  /** A name used twice is refused although nothing is recursive: marks are not taken back. */
  lemma UsedTwice(visited: seq<bool>)
    ensures var fs, name := [Entry("live", [TKey("tag")])], Leaf("live", NoOperand);
            var e, tag := Binary(Or, name, name), Leaf("tag", NoOperand);
            Expands(fs, e, [0, 0], Binary(Or, tag, tag)) && forall u, f :: !Allowed(fs, e, u, f, visited)
  {
    var fs, name := [Entry("live", [TKey("tag")])], Leaf("live", NoOperand);
    var e, tag := Binary(Or, name, name), Leaf("tag", NoOperand);
    assert ParsedOne([TKey("tag")]) == Done(tag, []);
    assert Tree(fs[0].filter) == tag;
    assert Expands(fs, tag, [], tag);
    assert [0 as nat][1..] == [] && Expands(fs, name, [0], tag);
    var used: seq<nat> := [0, 0];
    assert used[..1] == [0] && used[1..] == [0];
    assert Halves(fs, e, used, 1, Binary(Or, tag, tag));
    assert used[0] == used[1];
    assert !NoRepeat(used);
    forall u, f ensures !Allowed(fs, e, u, f, visited) {
      if Allowed(fs, e, u, f, visited) { ExpandsOnce(fs, e, u, f, used, Binary(Or, tag, tag)); }
    }
  }

  lemma SameReading(fs: seq<Entry>, used: seq<nat>, others: set<nat>, h: Valuation, h': Valuation)
    requires ReadsAsDefined(fs, used, h) && SameBut(fs, others, h, h') && Set(used) !! others
    requires forall i :: i in used ==>
             i < |fs| && NamesIn(fs, Tree(fs[i].filter), Set(used)) && Find(fs, fs[i].name) == i
    ensures ReadsAsDefined(fs, used, h')
  {
    forall i | 0 <= i < |used| ensures h'(fs[used[i]].name, NoOperand) == Eval(Tree(fs[used[i]].filter), h') {
      assert used[i] in used;
      EvalSame(fs, Tree(fs[used[i]].filter), Set(used), others, h, h');
    }
  }

  // ---- the code ----

  function Unvisited(visited: seq<bool>): nat {
    if visited == [] then 0 else (if visited[0] then 0 else 1) + Unvisited(visited[1..])
  }

  lemma {:induction false} UnvisitedShrinks(a: seq<bool>, b: seq<bool>)
    requires |a| == |b| && forall i :: 0 <= i < |a| && a[i] ==> b[i]
    ensures Unvisited(b) <= Unvisited(a)
            && ((exists i :: 0 <= i < |a| && !a[i] && b[i]) ==> Unvisited(b) < Unvisited(a))
  {
    if a == [] {
    } else {
      UnvisitedShrinks(a[1..], b[1..]);
    }
  }

  ghost predicate Marked(before: seq<bool>, used: seq<nat>, after: seq<bool>) {
    && |after| == |before|
    && (forall i :: i in used ==> i < |before| && !before[i])
    && forall i :: 0 <= i < |before| ==> after[i] == (before[i] || i in used)
  }

  /** The expansion exists and reads each entry once, none of them visited before. */
  ghost predicate Allowed(fs: seq<Entry>, e: Expr, used: seq<nat>, e': Expr, visited: seq<bool>) {
    Expands(fs, e, used, e') && NoRepeat(used) && forall i :: i in used ==> i < |visited| && !visited[i]
  }

  class Filters {
    var entries: seq<Entry>
    /** The mark of each entry. */
    var visited: seq<bool>

    predicate Valid()
      reads this
    { |visited| == |entries| }

    /** parse_filter, on the tokens of the text.  It succeeds iff the text parses and expands reading no entry twice. */
    method ParseFilter(text: seq<Token>) returns (ok: bool, e': Expr, ghost used: seq<nat>)
      requires Valid()
      modifies this`visited
      ensures Valid()
      ensures ok ==> Expands(entries, Tree(text), used, e') && NoRepeat(used) && OnlyBuiltin(e') && Complete(e')
      ensures !ok ==> forall u, f :: !(Expands(entries, Tree(text), u, f) && NoRepeat(u))
    {
      var e := ParseTokens(text);
      ok, e', used := false, Null, [];
      if e.Null? { return; }
      TreeComplete(text);
      var i := 0;
      while i < |entries|
        invariant i <= |entries| && Valid() && forall j :: 0 <= j < i ==> !visited[j]
      {
        visited := visited[i := false];
        i := i + 1;
      }
      ghost var visited0 := visited;
      ok, e', used := CheckLeaves(e);
      if ok {
        ghost var h := ReadingExists(entries, e, used, e', (_, _) => false);
        ExpandsMeans(entries, e, used, e', h);
      } else {
        forall u, f ensures !(Expands(entries, e, u, f) && NoRepeat(u)) {
          if Expands(entries, e, u, f) {
            UsedClosed(entries, e, u, f);
            assert !Allowed(entries, e, u, f, visited0);
          }
        }
      }
    }

    /** get_filter: the entry to read, once. */
    method GetFilter(name: string) returns (ok: bool, i: nat)
      requires Valid()
      modifies this`visited
      ensures Valid() && i == Find(entries, name) && ok == (i < |entries| && !old(visited)[i])
      ensures visited == if ok then old(visited)[i := true] else old(visited)
    {
      i := FindFilter(name);
      ok := i < |entries| && !visited[i];
      if ok { visited := visited[i := true]; }
    }

    method FindFilter(name: string) returns (i: nat)
      ensures i == Find(entries, name)
    {
      i := 0;
      while i < |entries| && entries[i].name != name
        invariant i <= |entries| && Find(entries, name) == i + Find(entries[i..], name)
      {
        i := i + 1;
      }
    }

    /** expr_check_leaves. */
    method CheckLeaves(e: Expr) returns (ok: bool, e': Expr, ghost used: seq<nat>)
      requires Valid() && Complete(e)
      modifies this`visited
      ensures Valid() && Grown(old(visited), visited)
      ensures ok ==> Allowed(entries, e, used, e', old(visited)) && Marked(old(visited), used, visited)
      ensures !ok ==> forall u, f :: !Allowed(entries, e, u, f, old(visited))
      decreases Unvisited(visited), e, 1
    {
      ghost var visited0 := visited;
      ok, e', used := false, e, [];
      match e {
        case Not(l) =>
          var l';
          ok, l', used := CheckLeaves(l);
          e' := Not(l');
          if !ok {
            forall u, f ensures !Allowed(entries, e, u, f, visited0) {
              if f.Not? { assert !Allowed(entries, l, u, f.left, visited0); }
            }
          }
        case Binary(_, _, _) => ok, e', used := CheckBinary(e);
        case Leaf(key, operand) =>
          if Builtin(key) != User {
            ok := Fits(Builtin(key), operand);
            return;
          }
          if operand.NoOperand? { ok, e', used := CheckUser(e); }
      }
    }

    /** The two sides in turn; what the first side read stays visited for the second. */
    method CheckBinary(e: Expr) returns (ok: bool, e': Expr, ghost used: seq<nat>)
      requires Valid() && Complete(e) && e.Binary?
      modifies this`visited
      ensures Valid() && Grown(old(visited), visited)
      ensures ok ==> Allowed(entries, e, used, e', old(visited)) && Marked(old(visited), used, visited)
      ensures !ok ==> forall u, f :: !Allowed(entries, e, u, f, old(visited))
      decreases Unvisited(visited), e, 0
    {
      ghost var visited0 := visited;
      var l', r';
      ghost var a, b;
      e', used := e, [];
      ok, l', a := CheckLeaves(e.left);
      if !ok {
        LeftFails(entries, e, visited0);
        return;
      }
      ghost var visited1 := visited;
      UnvisitedShrinks(visited0, visited1);
      ok, r', b := CheckLeaves(e.right);
      if !ok {
        RightFails(entries, e, a, l', visited0, visited1);
        return;
      }
      e', used := Binary(e.op, l', r'), a + b;
      BothSucceed(entries, e, a, l', b, r', visited0, visited1, visited);
    }

    /** A name that is not a built-in key. */
    method CheckUser(e: Expr) returns (ok: bool, e': Expr, ghost used: seq<nat>)
      requires Valid() && e.Leaf? && Builtin(e.key) == User && e.operand.NoOperand?
      modifies this`visited
      ensures Valid() && Grown(old(visited), visited)
      ensures ok ==> Allowed(entries, e, used, e', old(visited)) && Marked(old(visited), used, visited)
      ensures !ok ==> forall u, f :: !Allowed(entries, e, u, f, old(visited))
      decreases Unvisited(visited), e, 0
    {
      ghost var visited0 := visited;
      e', used := e, [];
      var i;
      ok, i := GetFilter(e.key);
      if !ok { return; }
      var tree := ParseTokens(entries[i].filter);
      if tree.Null? {
        UserFails(entries, e, i, tree, visited0, visited);
        return false, e, [];
      }
      TreeComplete(entries[i].filter);
      UnvisitedShrinks(visited0, visited);
      ghost var visited1 := visited;
      ghost var rest;
      ok, e', rest := CheckLeaves(tree);
      if !ok {
        UserFails(entries, e, i, tree, visited0, visited1);
      } else {
        used := [i] + rest;
        UserSucceeds(entries, e, i, rest, e', visited0, visited);
      }
    }
  }

  ghost predicate Grown(before: seq<bool>, after: seq<bool>) {
    |after| == |before| && forall i :: 0 <= i < |before| && before[i] ==> after[i]
  }

  lemma LeftFails(fs: seq<Entry>, e: Expr, visited: seq<bool>)
    requires e.Binary? && forall u, f :: !Allowed(fs, e.left, u, f, visited)
    ensures forall u, f :: !Allowed(fs, e, u, f, visited)
  {
    forall u, f ensures !Allowed(fs, e, u, f, visited) {
      if Allowed(fs, e, u, f, visited) { var k := LeftAllowed(fs, e, visited, u, f); }
    }
  }

  lemma LeftAllowed(fs: seq<Entry>, e: Expr, visited: seq<bool>, u: seq<nat>, f: Expr) returns (k: nat)
    requires e.Binary? && Allowed(fs, e, u, f, visited)
    ensures f.Binary? && Halves(fs, e, u, k, f) && Allowed(fs, e.left, u[..k], f.left, visited)
  {
    assert Expands(fs, e, u, f);
    k :| Halves(fs, e, u, k, f);
    forall x | x in u[..k] ensures x in u {}
    forall i, j | 0 <= i < j < k ensures u[..k][i] != u[..k][j] { assert u[i] != u[j]; }
  }

  lemma RightFails(fs: seq<Entry>, e: Expr, a: seq<nat>, l': Expr, visited: seq<bool>, visited1: seq<bool>)
    requires e.Binary? && Allowed(fs, e.left, a, l', visited) && Marked(visited, a, visited1)
    requires forall u, f :: !Allowed(fs, e.right, u, f, visited1)
    ensures forall u, f :: !Allowed(fs, e, u, f, visited)
  {
    forall u, f ensures !Allowed(fs, e, u, f, visited) {
      if Allowed(fs, e, u, f, visited) { RightAllowed(fs, e, a, l', visited, visited1, u, f); }
    }
  }

  lemma RightAllowed(fs: seq<Entry>, e: Expr, a: seq<nat>, l': Expr, visited: seq<bool>, visited1: seq<bool>,
                     u: seq<nat>, f: Expr)
    requires e.Binary? && Allowed(fs, e.left, a, l', visited) && Marked(visited, a, visited1)
    requires Allowed(fs, e, u, f, visited)
    ensures f.Binary? && |a| <= |u| && Allowed(fs, e.right, u[|a|..], f.right, visited1)
  {
    var k := LeftAllowed(fs, e, visited, u, f);
    ExpandsOnce(fs, e.left, u[..k], f.left, a, l');
    TailNoRepeat(u, k);
    forall x | x in u[k..] ensures x < |visited1| && !visited1[x] {
      assert x in u && x !in u[..k];
    }
  }

  lemma TailNoRepeat(u: seq<nat>, k: nat)
    requires NoRepeat(u) && k <= |u|
    ensures NoRepeat(u[k..]) && forall x :: x in u[k..] ==> x in u && x !in u[..k]
  {
    forall i, j | 0 <= i < j < |u| - k ensures u[k..][i] != u[k..][j] { assert u[k + i] != u[k + j]; }
    assert u == u[..k] + u[k..];
    Disjoint(u[..k], u[k..]);
    forall x | x in u[k..] ensures x in u && x !in u[..k] { assert x in Set(u[k..]); }
  }

  lemma BothSucceed(fs: seq<Entry>, e: Expr, a: seq<nat>, l': Expr, b: seq<nat>, r': Expr,
                    visited: seq<bool>, visited1: seq<bool>, visited2: seq<bool>)
    requires e.Binary? && Allowed(fs, e.left, a, l', visited) && Marked(visited, a, visited1)
    requires Allowed(fs, e.right, b, r', visited1) && Marked(visited1, b, visited2)
    ensures Allowed(fs, e, a + b, Binary(e.op, l', r'), visited) && Marked(visited, a + b, visited2)
  {
    var u, f := a + b, Binary(e.op, l', r');
    assert u[..|a|] == a && u[|a|..] == b;
    assert Halves(fs, e, u, |a|, f);
    forall i, j | 0 <= i < j < |u| ensures u[i] != u[j] {
      if i < |a| <= j { assert u[i] in a && u[j] in b; }
    }
  }

  lemma TreeComplete(ts: seq<Token>)
    requires !Tree(ts).Null?
    ensures Complete(Tree(ts))
  {
    ParsedComplete(ts);
    RestComplete(ParsedOne(ts).expr, ParsedOne(ts).rest, false);
  }

  lemma UserFails(fs: seq<Entry>, e: Expr, i: nat, tree: Expr, visited: seq<bool>, marked: seq<bool>)
    requires e.Leaf? && Builtin(e.key) == User && i == Find(fs, e.key) < |fs| == |visited| && tree == Tree(fs[i].filter)
    requires marked == visited[i := true] && forall u, f :: !Allowed(fs, tree, u, f, marked)
    ensures forall u, f :: !Allowed(fs, e, u, f, visited)
  {
    forall u, f ensures !Allowed(fs, e, u, f, visited) {
      if Allowed(fs, e, u, f, visited) { UserRest(fs, e, i, tree, visited, marked, u, f); }
    }
  }

  lemma UserRest(fs: seq<Entry>, e: Expr, i: nat, tree: Expr, visited: seq<bool>, marked: seq<bool>, u: seq<nat>,
                 f: Expr)
    requires e.Leaf? && Builtin(e.key) == User && i == Find(fs, e.key) < |fs| == |visited| && tree == Tree(fs[i].filter)
    requires marked == visited[i := true] && Allowed(fs, e, u, f, visited)
    ensures Allowed(fs, tree, u[1..], f, marked)
  {
    var rest := u[1..];
    TailNoRepeat(u, 1);
    assert u[..1] == [i];
    forall x | x in rest ensures x < |marked| && !marked[x] { assert x in u && x !in u[..1]; }
  }

  lemma UserSucceeds(fs: seq<Entry>, e: Expr, i: nat, rest: seq<nat>, e': Expr, visited: seq<bool>, visited2: seq<bool>)
    requires e.Leaf? && Builtin(e.key) == User && e.operand.NoOperand? && i == Find(fs, e.key) < |fs| == |visited|
             && !visited[i]
    requires Allowed(fs, Tree(fs[i].filter), rest, e', visited[i := true]) && Marked(visited[i := true], rest, visited2)
    ensures Allowed(fs, e, [i] + rest, e', visited) && Marked(visited, [i] + rest, visited2)
  {
    var u := [i] + rest;
    assert u[1..] == rest;
    FirstRead(visited, visited[i := true], i, rest, visited2);
  }

  lemma FirstRead(visited: seq<bool>, marked: seq<bool>, i: nat, rest: seq<nat>, visited2: seq<bool>)
    requires i < |visited| && !visited[i] && marked == visited[i := true] && NoRepeat(rest)
    requires (forall x :: x in rest ==> x < |marked| && !marked[x]) && Marked(marked, rest, visited2)
    ensures NoRepeat([i] + rest) && Marked(visited, [i] + rest, visited2)
    ensures forall x :: x in [i] + rest ==> x < |visited| && !visited[x]
  {
    var u := [i] + rest;
    assert i !in rest;
    forall j, k | 0 <= j < k < |u| ensures u[j] != u[k] { assert u[k] in rest; }
  }
}
