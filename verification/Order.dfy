/** Three-way comparisons, sorted sequences and stable sorting, shared by the sorted track list and the merge sort. */
module Order {

  type Cmp<!T> = (T, T) -> int

  /** The comparison laws for three elements. */
  ghost predicate Lawful<T>(cmp: Cmp<T>, a: T, b: T, c: T) {
    (cmp(a, b) < 0 <==> cmp(b, a) > 0) && (cmp(a, b) <= 0 && cmp(b, c) <= 0 ==> cmp(a, c) <= 0)
  }

  /** What a comparison function must be: a total preorder given by its sign. */
  ghost predicate TotalPreorder<T(!new)>(cmp: Cmp<T>) {
    forall a, b, c :: Lawful(cmp, a, b, c)
  }

  lemma CmpFlip<T(!new)>(cmp: Cmp<T>, a: T, b: T)
    requires TotalPreorder(cmp)
    ensures (cmp(a, b) < 0 <==> cmp(b, a) > 0) && (cmp(a, b) > 0 <==> cmp(b, a) < 0)
    ensures cmp(a, a) == 0
  {
    assert Lawful(cmp, a, b, b) && Lawful(cmp, b, a, a) && Lawful(cmp, a, a, a);
  }

  /** Order facts about three elements, in the forms the proofs need. */
  lemma CmpTransitive<T(!new)>(cmp: Cmp<T>, a: T, b: T, c: T)
    requires TotalPreorder(cmp) && cmp(a, b) <= 0 && cmp(b, c) <= 0
    ensures cmp(a, c) <= 0
    ensures cmp(a, b) < 0 || cmp(b, c) < 0 ==> cmp(a, c) < 0
    ensures cmp(a, b) == 0 && cmp(b, c) == 0 ==> cmp(a, c) == 0
  {
    CmpFlip(cmp, a, b);
    CmpFlip(cmp, b, c);
    CmpFlip(cmp, a, c);
    assert Lawful(cmp, a, b, c) && Lawful(cmp, c, a, b) && Lawful(cmp, b, c, a) && Lawful(cmp, c, b, a);
  }

  ghost predicate Sorted<T>(cmp: Cmp<T>, s: seq<T>) {
    forall i, j :: 0 <= i < j < |s| ==> cmp(s[i], s[j]) <= 0
  }

  ghost predicate NoRepeat<T>(s: seq<T>) {
    forall i, j :: 0 <= i < j < |s| ==> s[i] != s[j]
  }

  /** The elements of `s` that compare equal to `x`, in order. */
  ghost function Class<T>(cmp: Cmp<T>, x: T, s: seq<T>): seq<T> {
    if s == [] then [] else (if cmp(x, s[0]) == 0 then [s[0]] else []) + Class(cmp, x, s[1..])
  }

  /** `r` is `s` sorted, equal elements keeping their order. */
  ghost predicate StablySorted<T(!new)>(cmp: Cmp<T>, s: seq<T>, r: seq<T>) {
    Sorted(cmp, r) && forall x :: Class(cmp, x, r) == Class(cmp, x, s)
  }

  lemma {:induction false} ClassConcat<T>(cmp: Cmp<T>, x: T, a: seq<T>, b: seq<T>)
    ensures Class(cmp, x, a + b) == Class(cmp, x, a) + Class(cmp, x, b)
  {
    if a == [] {
      assert a + b == b;
    } else {
      assert (a + b)[1..] == a[1..] + b;
      ClassConcat(cmp, x, a[1..], b);
    }
  }

  lemma {:induction false} ClassEmpty<T>(cmp: Cmp<T>, x: T, s: seq<T>)
    requires forall i :: 0 <= i < |s| ==> cmp(x, s[i]) != 0
    ensures Class(cmp, x, s) == []
  {
    if s == [] {
    } else {
      ClassEmpty(cmp, x, s[1..]);
    }
  }

  /** Equal classes mean equal multiplicities. */
  lemma {:induction false} ClassCount<T(!new)>(cmp: Cmp<T>, x: T, s: seq<T>)
    requires TotalPreorder(cmp)
    ensures multiset(s)[x] == multiset(Class(cmp, x, s))[x]
  {
    CmpFlip(cmp, x, x);
    if s == [] {
    } else {
      assert s == [s[0]] + s[1..];
      ClassCount(cmp, x, s[1..]);
    }
  }

  /** A stable sort is a permutation. */
  lemma StablySortedPermutes<T(!new)>(cmp: Cmp<T>, s: seq<T>, r: seq<T>)
    requires TotalPreorder(cmp) && StablySorted(cmp, s, r)
    ensures multiset(r) == multiset(s)
  {
    forall x ensures multiset(r)[x] == multiset(s)[x] {
      ClassCount(cmp, x, r);
      ClassCount(cmp, x, s);
    }
  }

  /** There is only one: sortedness and the classes determine the sequence. */
  lemma {:induction false} StablySortedUnique<T(!new)>(cmp: Cmp<T>, s: seq<T>, r: seq<T>, r': seq<T>)
    requires TotalPreorder(cmp) && StablySorted(cmp, s, r) && StablySorted(cmp, s, r')
    ensures r == r'
  {
    SameClassesSame(cmp, r, r');
  }

  lemma ClassHead<T(!new)>(cmp: Cmp<T>, s: seq<T>)
    requires TotalPreorder(cmp) && s != []
    ensures Class(cmp, s[0], s) != [] && Class(cmp, s[0], s)[0] == s[0]
  {
    CmpFlip(cmp, s[0], s[0]);
  }

  lemma {:induction false} SameClassesSame<T(!new)>(cmp: Cmp<T>, r: seq<T>, r': seq<T>)
    requires TotalPreorder(cmp) && Sorted(cmp, r) && Sorted(cmp, r')
    requires forall x :: Class(cmp, x, r) == Class(cmp, x, r')
    ensures r == r'
    decreases |r|
  {
    if r == [] {
      assert r' == [] by {
        if r' != [] { ClassHead(cmp, r'); }
      }
    } else {
      var x := r[0];
      ClassHead(cmp, r);
      assert Class(cmp, x, r') == Class(cmp, x, r);
      var i := FirstOfClass(cmp, x, r');
      if i > 0 {
        // r'[0] is strictly below x, so it can be nowhere in r
        var y := r'[0];
        CmpFlip(cmp, x, y);
        CmpFlip(cmp, x, r'[i]);
        CmpTransitive(cmp, y, r'[i], r'[i]);
        ClassHead(cmp, r');
        assert cmp(y, x) < 0;
        forall j | 0 <= j < |r| ensures cmp(y, r[j]) != 0 { CmpTransitive(cmp, y, x, r[j]); }
        ClassEmpty(cmp, y, r);
      }
      assert r'[0] == x;
      forall y ensures Class(cmp, y, r[1..]) == Class(cmp, y, r'[1..]) {
        var n := if cmp(y, x) == 0 then 1 else 0;
        assert Class(cmp, y, r[1..]) == Class(cmp, y, r)[n..] == Class(cmp, y, r')[n..] == Class(cmp, y, r'[1..]);
      }
      SameClassesSame(cmp, r[1..], r'[1..]);
    }
  }

  /** The first element of a non-empty class and where it stands. */
  lemma {:induction false} FirstOfClass<T>(cmp: Cmp<T>, x: T, s: seq<T>) returns (i: nat)
    requires Class(cmp, x, s) != []
    ensures i < |s| && cmp(x, s[i]) == 0 && s[i] == Class(cmp, x, s)[0]
    ensures forall j :: 0 <= j < i ==> cmp(x, s[j]) != 0
  {
    if cmp(x, s[0]) == 0 {
      i := 0;
    } else {
      i := FirstOfClass(cmp, x, s[1..]);
      i := i + 1;
    }
  }
}
