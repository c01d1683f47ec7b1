/** The library view (src/library/lib.c): the stored tracks that the filters let through, kept up to date by removing
    rows only whenever the result is believed to shrink. */
module LibView {
  import opened Common
  import opened Glob
  import Expr
  import Typing

  // ---- words (get_words in src/common/misc.c) ----

  function WordEnd(text: string, i: nat): (e: nat)
    requires i <= |text|
    ensures i <= e <= |text| && (forall k :: i <= k < e ==> text[k] != ' ') && (e < |text| ==> text[e] == ' ')
    decreases |text| - i
  { if i == |text| || text[i] == ' ' then i else WordEnd(text, i + 1) }

  /** The words of `text` from place `i` on. */
  function Words(text: string, i: nat): seq<string>
    requires i <= |text|
    decreases |text| - i
  {
    if i == |text| then []
    else if text[i] == ' ' then Words(text, i + 1)
    else [text[i..WordEnd(text, i)]] + Words(text, WordEnd(text, i))
  }

  /** A longest stretch without spaces. */
  predicate WordAt(text: string, s: nat, e: nat) {
    && s < e <= |text| && (forall k :: s <= k < e ==> text[k] != ' ')
    && (s > 0 ==> text[s - 1] == ' ') && (e < |text| ==> text[e] == ' ')
  }

  /** `i` is not inside a word. */
  predicate Between(text: string, i: nat) { i <= |text| && (0 < i < |text| ==> text[i - 1] == ' ' || text[i] == ' ') }

  lemma {:induction false} WordsAre(text: string, i: nat, w: string)
    requires Between(text, i)
    ensures w in Words(text, i) <==> exists s: nat, e: nat :: s >= i && WordAt(text, s, e) && w == text[s..e]
    decreases |text| - i
  {
    if i >= |text| {
    } else {
      var e := WordEnd(text, i);
      if text[i] == ' ' {
        WordsAre(text, i + 1, w);
      } else {
        WordsAre(text, e, w);
        assert i == 0 || text[i - 1] == ' ';
        assert WordAt(text, i, e);
        forall s: nat, e': nat | s >= i && WordAt(text, s, e') ensures s >= e || (s == i && e' == e) {}
      }
    }
  }

  /** The word around a place that is not a space. */
  lemma {:induction false} WordStart(text: string, i: nat) returns (s: nat)
    requires i < |text| && text[i] != ' '
    ensures s <= i && (s > 0 ==> text[s - 1] == ' ') && forall k :: s <= k <= i ==> text[k] != ' '
  {
    s := i;
    if i > 0 && text[i - 1] != ' ' { s := WordStart(text, i - 1); }
  }

  /** The word around a stretch without spaces. */
  /** `ws` stand at the places `at`, which rise from `i` on, each as a word. */
  ghost predicate Placed(text: string, i: nat, ws: seq<string>, at: seq<nat>) {
    && |at| == |ws|
    && (forall k :: 0 <= k < |at| ==> at[k] >= i && StandsAs(text, at[k], ws[k]))
    && forall k, l :: 0 <= k < l < |at| ==> at[k] < at[l]
  }

  ghost predicate StandsAs(text: string, s: nat, w: string) { WordAt(text, s, s + |w|) && w == text[s..s + |w|] }

  /** The places of the words, in order: every word of the text once. */
  lemma {:induction false} WordsInOrder(text: string, i: nat) returns (at: seq<nat>)
    requires Between(text, i)
    ensures Placed(text, i, Words(text, i), at)
    ensures forall s: nat, e :: s >= i && WordAt(text, s, e) ==> s in at
    decreases |text| - i
  {
    at := [];
    if i < |text| {
      if text[i] == ' ' {
        at := WordsInOrder(text, i + 1);
      } else {
        var e := WordEnd(text, i);
        var rest := WordsInOrder(text, e);
        assert WordAt(text, i, e);
        at := [i] + rest;
        PlacedFirst(text, i, e, Words(text, e), rest);
        forall s: nat, f | s >= i && WordAt(text, s, f) ensures s in at {
          if s < e { OneWord(text, i, e, s, f); } else { assert s in rest; }
        }
      }
    }
  }

  lemma PlacedFirst(text: string, i: nat, e: nat, ws: seq<string>, at: seq<nat>)
    requires WordAt(text, i, e) && Placed(text, e, ws, at)
    ensures Placed(text, i, [text[i..e]] + ws, [i] + at)
  {
    var vs, bt := [text[i..e]] + ws, [i] + at;
    forall k | 0 <= k < |bt| ensures bt[k] >= i && StandsAs(text, bt[k], vs[k]) {
      if k > 0 { assert StandsAs(text, at[k - 1], ws[k - 1]); }
    }
  }

  lemma OneWord(text: string, i: nat, e: nat, s: nat, f: nat)
    requires WordAt(text, i, e) && WordAt(text, s, f) && i <= s < e
    ensures s == i
  {
    assert s > 0 ==> text[s - 1] == ' ';
    assert forall k :: i <= k < e ==> text[k] != ' ';
  }

  lemma WordAround(text: string, p: nat, q: nat) returns (s: nat, e: nat)
    requires p < q <= |text| && forall k :: p <= k < q ==> text[k] != ' '
    ensures s <= p < q <= e && WordAt(text, s, e) && text[s..e] == text[s..p] + text[p..q] + text[q..e]
  {
    s := WordStart(text, p);
    e := WordEnd(text, q);
  }

  lemma Inner(a: string, text: string, b: string, s: nat, e: nat)
    requires s <= e <= |text|
    ensures (a + text + b)[|a| + s..|a| + e] == text[s..e]
    ensures forall k :: |a| + s <= k < |a| + e ==> (a + text + b)[k] == text[k - |a|]
  {
  }

  lemma IsWord(text: string, s: nat, e: nat, w: string)
    requires WordAt(text, s, e) && w == text[s..e]
    ensures w in Words(text, 0)
  {
    WordsAre(text, 0, w);
  }

  /** Every word of a text lies inside a word of any text around it. */
  lemma WordInside(a: string, text: string, b: string, w: string) returns (x: string, y: string)
    requires w in Words(text, 0)
    ensures x + w + y in Words(a + text + b, 0)
  {
    WordsAre(text, 0, w);
    var s: nat, e: nat :| WordAt(text, s, e) && w == text[s..e];
    var whole, p, q := a + text + b, |a| + s, |a| + e;
    Inner(a, text, b, s, e);
    var s', e' := WordAround(whole, p, q);
    x, y := whole[s'..p], whole[q..e'];
    IsWord(whole, s', e', x + w + y);
  }

  // ---- matching ----

  /** `tags` are the tags of a track that are searched; `shown` stands in when there are none (its url or file name). */
  datatype Track = Track(filename: string, tags: seq<Text>, shown: Text)

  type Text = s: string | '\0' !in s

  ghost predicate Contains(eq: Fold, text: string, w: string) {
    exists k :: 0 <= k <= |text| && Literally(eq, w, text[k..])
  }

  function Searched(t: Track): seq<Text> { if t.tags != [] then t.tags else [t.shown] }

  ghost predicate HasWord(eq: Fold, t: Track, w: string) {
    exists i :: 0 <= i < |Searched(t)| && Contains(eq, Searched(t)[i], w)
  }

  /** track_info_matches: every word is found; but without words nothing matches. */
  ghost predicate MatchesText(eq: Fold, t: Track, text: string) {
    Words(text, 0) != [] && forall w :: w in Words(text, 0) ==> HasWord(eq, t, w)
  }

  lemma ContainsPart(eq: Fold, text: string, x: string, w: string, y: string)
    requires Contains(eq, text, x + w + y)
    ensures Contains(eq, text, w)
  {
    var k :| 0 <= k <= |text| && Literally(eq, x + w + y, text[k..]);
    var m := k + |x|;
    forall i | 0 <= i < |w| ensures eq(w[i], text[m..][i]) {
      assert eq((x + w + y)[|x| + i], text[k..][|x| + i]);
    }
    assert Literally(eq, w, text[m..]);
  }

  /** A longer text matches no more, unless the shorter one has no words. */
  lemma LongerMatchesLess(eq: Fold, t: Track, a: string, text: string, b: string)
    requires Words(text, 0) != [] && MatchesText(eq, t, a + text + b)
    ensures MatchesText(eq, t, text)
  {
    forall w | w in Words(text, 0) ensures HasWord(eq, t, w) {
      var x, y := WordInside(a, text, b, w);
      var i :| 0 <= i < |Searched(t)| && Contains(eq, Searched(t)[i], x + w + y);
      ContainsPart(eq, Searched(t)[i], x, w, y);
    }
  }

  /** get_words. */
  method GetWords(text: string) returns (words: seq<string>)
    ensures words == Words(text, 0)
  {
    words := [];
    var i := 0;
    while i < |text|
      invariant i <= |text| && Words(text, 0) == words + Words(text, i)
    {
      var start := i;
      while i < |text| && text[i] != ' '
        invariant start <= i <= |text| && WordEnd(text, start) == WordEnd(text, i)
      {
        i := i + 1;
      }
      if start < i {
        Regroup(words, text[start..i], Words(text, i));
        words := words + [text[start..i]];
      }
      while i < |text| && text[i] == ' '
        invariant start <= i <= |text| && Words(text, 0) == words + Words(text, i)
        invariant start < i || (start == i < |text| && text[i] == ' ')
      {
        i := i + 1;
      }
    }
    assert words + [] == words;
  }

  /** u_strcasestr_filename. */
  method FindText(eq: Fold, w: string, text: Text) returns (found: bool)
    ensures found <==> Contains(eq, text, w)
  {
    BytesNoNul(text);
    var str := Bytes(text);
    assert str[0..] == str;
    ghost var p, here;
    var pos;
    found, pos, p, here := Find(eq, w, str, 0, 0, text);
  }

  method FindWord(eq: Fold, t: Track, w: string) returns (r: bool)
    ensures r <==> HasWord(eq, t, w)
    ensures r <==> (if t.tags == [] then Contains(eq, t.shown, w)
                    else exists i :: 0 <= i < |t.tags| && Contains(eq, t.tags[i], w))
  {
    var texts := if t.tags != [] then t.tags else [t.shown];
    var i := 0;
    while i < |texts|
      invariant i <= |texts| && forall j :: 0 <= j < i ==> !Contains(eq, texts[j], w)
    {
      var found := FindText(eq, w, texts[i]);
      if found {
        assert Contains(eq, Searched(t)[i], w);
        return true;
      }
      i := i + 1;
    }
    assert !Contains(eq, texts[0], w);
    return false;
  }

  method TrackMatches(eq: Fold, t: Track, text: string) returns (matched: bool)
    ensures matched <==> MatchesText(eq, t, text)
  {
    var words := GetWords(text);
    matched := false;
    var i := 0;
    while i < |words|
      invariant i <= |words| && (matched <==> i > 0) && forall j :: 0 <= j < i ==> HasWord(eq, t, words[j])
    {
      matched := FindWord(eq, t, words[i]);
      if !matched {
        assert words[i] in words;
        return;
      }
      i := i + 1;
    }
  }

  // ---- the store and the view ----

  const FH_SIZE: nat := 1024

  /** What a filter expression says of a track. */
  type Condition = Track -> bool

  predicate HoldsOf(f: Option<Condition>, t: Track) { f.Some? ==> f.value(t) }

  /** What a parser makes of a filter in the short form, and what the leaves of its trees say of a track. */
  datatype Reading = Reading(parse: string -> Option<Expr.Expr>, holds: (Track, string, Expr.Operand) -> bool) {
    predicate Says(e: Expr.Expr, t: Track) { Expr.Eval(e, (key, operand) => holds(t, key, operand)) }
    /** The expression of a live filter, which only the short form has. */
    function Parsed(live: Option<string>): Option<Expr.Expr> {
      if live.Some? && IsShort(live.value) then parse(live.value) else None
    }
    /** A text in the short form that does not parse is refused. */
    predicate Accepts(live: Option<string>) { live.Some? && IsShort(live.value) ==> parse(live.value).Some? }
  }

  ghost predicate PassesLive(eq: Fold, read: Reading, live: Option<string>, t: Track) {
    live.Some? ==> match read.Parsed(live)
                   case Some(e) => read.Says(e, t)
                   case None => MatchesText(eq, t, live.value)
  }

  /** `~`, possibly after `!`, `(` and spaces, starts a filter expression in the short form. */
  predicate IsShort(s: string) {
    s != [] && (s[0] == '~' || ((s[0] == '!' || s[0] == '(' || s[0] == ' ') && IsShort(s[1..])))
  }

  /** That is: a tilde with nothing but `!`, `(` and spaces before it. */
  lemma {:induction false} IsShortMeans(s: string)
    ensures IsShort(s) <==> exists k :: TildeAt(s, k)
  {
    if s == [] {
    } else if s[0] == '~' {
      assert TildeAt(s, 0);
    } else {
      IsShortMeans(s[1..]);
      if k :| TildeAt(s, k) {
        assert k > 0;
        assert TildeAt(s[1..], k - 1);
      }
      if s[0] == '!' || s[0] == '(' || s[0] == ' ' {
        if k :| TildeAt(s[1..], k) {
          forall j | 0 <= j < k + 1 ensures s[j] == '!' || s[j] == '(' || s[j] == ' ' {
            assert j > 0 ==> s[j] == s[1..][j - 1];
          }
          assert TildeAt(s, k + 1);
        }
      }
    }
  }

  predicate TildeAt(s: string, k: int) {
    0 <= k < |s| && s[k] == '~' && forall j :: 0 <= j < k ==> s[j] == '!' || s[j] == '(' || s[j] == ' '
  }

  predicate NoRepeat(s: seq<Track>) { forall i, j :: 0 <= i < j < |s| ==> s[i] != s[j] }

  function Without(s: seq<Track>, i: nat): seq<Track>
    requires i < |s|
  { s[..i] + s[i + 1..] }

  predicate OccursAt(text: string, within: string, k: nat) {
    k + |text| <= |within| && within[k..k + |text|] == text
  }

  /** strstr. */
  ghost predicate Occurs(text: string, within: string) { exists k: nat :: OccursAt(text, within, k) }

  class Library {
    const eq: Fold
    const hash: string -> nat
    const read: Reading
    const buckets: array<seq<Track>>
    var view: seq<Track>
    var filter: Option<Condition>
    var addFilter: Option<Condition>
    var live: Option<string>
    var liveExpr: Option<Expr.Expr>

    function Slot(t: Track): (i: nat)
      ensures i < FH_SIZE
    { hash(t.filename) % FH_SIZE }

    /** Every track is in the bucket of its file name, and no two in it have the same. */
    ghost predicate StoreOk()
      reads this, buckets
    {
      buckets.Length == FH_SIZE
      && forall i :: 0 <= i < FH_SIZE ==> BucketOk(buckets[i], i)
    }

    ghost predicate BucketOk(b: seq<Track>, i: nat) {
      && (forall j :: 0 <= j < |b| ==> Slot(b[j]) == i)
      && forall j, k :: 0 <= j < k < |b| ==> b[j].filename != b[k].filename
    }

    ghost predicate Stored(t: Track)
      requires buckets.Length == FH_SIZE
      reads this, buckets
    { t in buckets[Slot(t)] }

    ghost predicate NameFree(t: Track)
      requires buckets.Length == FH_SIZE
      reads this, buckets
    { forall u :: Stored(u) ==> u.filename != t.filename }

    ghost predicate Shown(t: Track)
      reads this
    { PassesLive(eq, read, live, t) && HoldsOf(filter, t) }

    ghost predicate LiveOk()
      reads this
    { read.Accepts(live) && liveExpr == read.Parsed(live) }

    /** Everything but the view. */
    ghost function Now(): State
      requires buckets.Length == FH_SIZE
      reads this, buckets
    { State((iset t: Track | Stored(t)), filter, addFilter, live) }

    /** The view holds each unfiltered stored track exactly once and nothing else. */
    ghost predicate Agrees()
      requires buckets.Length == FH_SIZE
      reads this, buckets
    {
      NoRepeat(view) && forall t :: t in view <==> Stored(t) && Shown(t)
    }

    ghost predicate Valid()
      reads this, buckets
    { StoreOk() && LiveOk() && Agrees() }

    constructor (eq: Fold, hash: string -> nat, read: Reading)
      ensures Valid() && view == [] && live == None && filter == None && addFilter == None && fresh(buckets)
      ensures this.eq == eq && this.hash == hash && this.read == read
      ensures forall t :: !Stored(t)
    {
      this.eq, this.hash, this.read := eq, hash, read;
      buckets := new seq<Track>[FH_SIZE](_ => []);
      view, filter, addFilter, live, liveExpr := [], None, None, None, None;
    }

    /** is_filtered. */
    method IsFiltered(t: Track) returns (r: bool)
      requires LiveOk()
      ensures r <==> !Shown(t)
      ensures r <==> || (liveExpr.Some? && !read.Says(liveExpr.value, t))
                     || (liveExpr.None? && live.Some? && !MatchesText(eq, t, live.value))
                     || (filter.Some? && !filter.value(t))
    {
      if liveExpr.Some? && !read.Says(liveExpr.value, t) { return true; }
      if liveExpr.None? && live.Some? {
        var matches := TrackMatches(eq, t, live.value);
        if !matches { return true; }
      }
      r := filter.Some? && !filter.value(t);
    }

    /** hash_insert. */
    method HashInsert(t: Track) returns (inserted: bool)
      requires StoreOk()
      modifies buckets
      ensures StoreOk()
      ensures inserted <==> old(NameFree(t))
      ensures forall u :: Stored(u) <==> old(Stored(u)) || (inserted && u == t)
    {
      var pos := Slot(t);
      var b := buckets[pos];
      var i := 0;
      while i < |b|
        invariant i <= |b| && forall j :: 0 <= j < i ==> b[j].filename != t.filename
      {
        if b[i].filename == t.filename {
          assert Stored(b[i]);
          return false;
        }
        i := i + 1;
      }
      buckets[pos] := [t] + b;
      return true;
    }

    /** hash_remove.  It cannot run off the end of the bucket of a stored track. */
    method HashRemove(t: Track)
      requires StoreOk() && Stored(t)
      modifies buckets
      ensures StoreOk()
      ensures forall u :: Stored(u) <==> old(Stored(u)) && u != t
    {
      var pos := Slot(t);
      var b := buckets[pos];
      var i := 0;
      while b[i].filename != t.filename
        invariant i < |b| && t in b[i..]
        decreases |b| - i
      {
        assert b[i..] == [b[i]] + b[i + 1..];
        i := i + 1;
      }
      assert b[i] == t;
      var rest := b[..i] + b[i + 1..];
      WithoutMembers(b, i);
      buckets[pos] := rest;
    }

    lemma WithoutMembers(b: seq<Track>, i: nat)
      requires i < |b| && BucketOk(b, Slot(b[i]))
      ensures BucketOk(b[..i] + b[i + 1..], Slot(b[i]))
      ensures forall u :: u in b[..i] + b[i + 1..] <==> u in b && u != b[i]
    {
      var r := b[..i] + b[i + 1..];
      forall j | 0 <= j < |r| ensures r[j] == b[if j < i then j else j + 1] {}
      assert b == b[..i] + [b[i]] + b[i + 1..];
    }

    /** views_add_track. */
    method ViewAdd(t: Track)
      requires t !in view && NoRepeat(view)
      modifies this`view
      ensures NoRepeat(view) && forall u :: u in view <==> u in old(view) || u == t
    { view := view + [t]; }

    /** lib_add_track. */
    method Add(t: Track)
      requires Valid()
      modifies this`view, buckets
      ensures Valid()
      ensures forall u :: Stored(u) <==> (old(Stored(u)) || (u == t && HoldsOf(addFilter, t) && old(NameFree(t))))
    {
      if addFilter.Some? && !addFilter.value(t) { return; }
      var inserted := HashInsert(t);
      if !inserted { return; }
      var filtered := IsFiltered(t);
      if !filtered { ViewAdd(t); }
    }

    /** lib_remove: only a track in the view is removed, and then from the store too. */
    method Remove(t: Track) returns (removed: bool)
      requires Valid()
      modifies this`view, buckets
      ensures Valid() && removed == (t in old(view))
      ensures forall u :: Stored(u) <==> old(Stored(u)) && (!removed || u != t)
    {
      var i := 0;
      while i < |view|
        invariant i <= |view| && view == old(view) && t !in view[..i] && Valid()
        invariant forall u :: Stored(u) <==> old(Stored(u))
      {
        if view[i] == t {
          HashRemove(t);
          RemoveRow(i);
          return true;
        }
        i := i + 1;
      }
      return false;
    }

    method RemoveRow(i: nat)
      requires i < |view| && NoRepeat(view)
      modifies this`view
      ensures NoRepeat(view) && view == Without(old(view), i)
      ensures forall u :: u in view <==> u in old(view) && u != old(view)[i]
    {
      ghost var v := view;
      view := view[..i] + view[i + 1..];
      forall j | 0 <= j < |view| ensures view[j] == v[if j < i then j else j + 1] {}
      assert v == v[..i] + [v[i]] + v[i + 1..];
    }

    /** editable_remove_matching_tracks with is_filtered: rows go, none come. */
    method RemoveFiltered()
      requires NoRepeat(view) && LiveOk()
      modifies this`view
      ensures NoRepeat(view) && forall u :: u in view <==> u in old(view) && Shown(u)
    {
      var i := 0;
      while i < |view|
        invariant i <= |view| && NoRepeat(view)
        invariant forall u :: u in view[..i] ==> Shown(u)
        invariant forall u :: u in view ==> u in old(view)
        invariant forall u :: u in old(view) && Shown(u) ==> u in view
        decreases |view| - i
      {
        var filtered := IsFiltered(view[i]);
        if filtered {
          ghost var v := view;
          RemoveRow(i);
          assert view[..i] == v[..i];
        } else {
          assert view[..i + 1] == view[..i] + [view[i]];
          i := i + 1;
        }
      }
      assert view[..i] == view;
    }

    /** hash_add_to_views, into an empty view. */
    method AddAll()
      requires StoreOk() && LiveOk() && view == []
      modifies this`view
      ensures Agrees()
    {
      var i := 0;
      while i < FH_SIZE
        invariant i <= FH_SIZE && NoRepeat(view)
        invariant forall t :: t in view <==> Stored(t) && Shown(t) && Slot(t) < i
      {
        AddBucket(i);
        i := i + 1;
      }
    }

    method AddBucket(i: nat)
      requires StoreOk() && LiveOk() && i < FH_SIZE && NoRepeat(view)
      requires forall t :: t in view <==> Stored(t) && Shown(t) && Slot(t) < i
      modifies this`view
      ensures NoRepeat(view) && forall t :: t in view <==> Stored(t) && Shown(t) && Slot(t) <= i
    {
      var b := buckets[i];
      var j := 0;
      while j < |b|
        invariant j <= |b| && NoRepeat(view)
        invariant forall t :: t in view <==> Shown(t) && ((Stored(t) && Slot(t) < i) || t in b[..j])
      {
        assert b[j] !in b[..j];
        assert b[..j + 1] == b[..j] + [b[j]];
        assert Slot(b[j]) == i;
        var filtered := IsFiltered(b[j]);
        if !filtered { ViewAdd(b[j]); }
        j := j + 1;
      }
      assert b[..j] == b;
    }

    /** do_lib_filter.  Without clearing it removes rows only, so it is right iff nothing is missing. */
    method Refilter(clearBefore: bool)
      requires StoreOk() && LiveOk() && NoRepeat(view) && forall t :: t in view ==> Stored(t)
      modifies this`view
      ensures NoRepeat(view) && forall t :: t in view ==> Stored(t)
      ensures Agrees() <==> clearBefore || forall t :: Stored(t) && Shown(t) ==> t in old(view)
    {
      if clearBefore {
        view := [];
        AddAll();
      } else {
        RemoveFiltered();
      }
    }

    /** lib_set_filter. */
    method SetFilter(f: Option<Condition>)
      requires Valid()
      modifies this`view, this`filter, this`live, this`liveExpr
      ensures Valid() && filter == f && live == None
    {
      var clearBefore := live.Some? || filter.Some?;
      live, liveExpr := None, None;
      filter := f;
      Refilter(clearBefore);
    }

    method SetAddFilter(f: Option<Condition>)
      requires Valid()
      modifies this`addFilter
      ensures Valid() && addFilter == f
    { addFilter := f; }

    /** do_clear_before: rows are only removed when both live filters have the same form, the new text contains the old
        one, and the new expression is harmless. */
    method ClearBefore(text: Option<string>, expr: Option<Expr.Expr>) returns (r: bool)
      ensures r <==> live.Some? && (text.None? || expr.Some? != liveExpr.Some? || !Occurs(live.value, text.value)
                                    || (expr.Some? && !Expr.Harmless(expr.value)))
    {
      if live.None? { return false; }
      if text.None? { return true; }
      if expr.Some? != liveExpr.Some? { return true; }
      if expr.None? || Expr.Harmless(expr.value) {
        var within := StrStr(live.value, text.value);
        return !within;
      }
      return true;
    }

    /** lib_set_live_filter.  The view is right afterwards iff no stored track to be shown was lost. */
    method SetLive(text: Option<string>)
      requires Valid()
      modifies this`view, this`live, this`liveExpr
      ensures StoreOk() && LiveOk() && live == if read.Accepts(text) then text else old(live)
      ensures Agrees() <==> !exists t :: Stored(t) && Shown(t) && Loses(eq, read, old(live), live, t)
    {
      if text == live { return; }
      var expr := None;
      if text.Some? && IsShort(text.value) {
        expr := read.parse(text.value);
        if expr.None? { return; }
      }
      var clearBefore := ClearBefore(text, expr);
      forall t | !clearBefore && PassesLive(eq, read, text, t)
        ensures PassesLive(eq, read, live, t) <==> !Loses(eq, read, live, text, t)
      {
        KeptOrLost(eq, read, live, text, t);
      }
      live, liveExpr := text, expr;
      Refilter(clearBefore);
    }
  }

  ghost predicate Extends(live: Option<string>, liveExpr: Option<Expr.Expr>, text: Option<string>,
                          expr: Option<Expr.Expr>) {
    && live.Some? && text.Some? && expr.Some? == liveExpr.Some? && (expr.Some? ==> Expr.Harmless(expr.value))
    && Occurs(live.value, text.value)
  }

  /** A track the old live filter hid, although the new one only extends it: that has no words, or its expression says
      no where the new one says yes. */
  ghost predicate Loses(eq: Fold, read: Reading, before: Option<string>, text: Option<string>, t: Track) {
    && before != text && Extends(before, read.Parsed(before), text, read.Parsed(text))
    && match read.Parsed(before)
       case None => Words(before.value, 0) == []
       case Some(e) => !read.Says(e, t)
  }

  lemma KeptOrLost(eq: Fold, read: Reading, before: Option<string>, text: Option<string>, t: Track)
    requires before != text && read.Accepts(before) && read.Accepts(text) && PassesLive(eq, read, text, t)
    requires before.Some? ==> Extends(before, read.Parsed(before), text, read.Parsed(text))
    ensures PassesLive(eq, read, before, t) <==> !Loses(eq, read, before, text, t)
  {
    if before.Some? && read.Parsed(before).None? && Words(before.value, 0) != [] {
      OccursMatchesLess(eq, t, before.value, text.value);
    }
  }

  lemma OccursMatchesLess(eq: Fold, t: Track, text: string, longer: string)
    requires Words(text, 0) != [] && Occurs(text, longer) && MatchesText(eq, t, longer)
    ensures MatchesText(eq, t, text)
  {
    var k: nat :| OccursAt(text, longer, k);
    assert longer == longer[..k] + text + longer[k + |text|..];
    LongerMatchesLess(eq, t, longer[..k], text, longer[k + |text|..]);
  }

  method StrStr(text: string, within: string) returns (r: bool)
    ensures r <==> Occurs(text, within)
  {
    var k := 0;
    while k + |text| <= |within|
      invariant 0 <= k && forall j: nat :: j < k ==> !OccursAt(text, within, j)
    {
      if within[k..k + |text|] == text {
        assert OccursAt(text, within, k);
        return true;
      }
      k := k + 1;
    }
    return false;
  }

  /** The calls that change the store or the filters. */
  datatype Call = Add(t: Track) | Remove(t: Track)
    | SetFilter(f: Option<Condition>) | SetAddFilter(f: Option<Condition>)
    | SetLive(text: Option<string>)

  /** A plain text needs a word.  A harmless expression has to keep what src/library/expr.h promises of it: it says no
      more than the expression of any text inside it. */
  ghost predicate Sound(read: Reading, text: Option<string>) {
    text.Some? ==>
      match read.Parsed(text)
      case None => Words(text.value, 0) != []
      case Some(e) => Expr.Harmless(e) ==> SaysLess(read, text.value, e)
  }

  ghost predicate SaysLess(read: Reading, text: string, e: Expr.Expr) {
    forall part, t :: Occurs(part, text) && read.Says(e, t) ==> SaidBefore(read, part, t)
  }

  ghost predicate SaidBefore(read: Reading, part: string, t: Track) {
    match read.Parsed(Some(part))
    case None => true
    case Some(e) => read.Says(e, t)
  }

  datatype State = State(stored: iset<Track>, filter: Option<Condition>, addFilter: Option<Condition>,
                         live: Option<string>)

  /** What a call makes of the library: a track joins if the filter for additions lets it and its file name is new, only
      a track that is shown can be removed, and a text that is not accepted changes nothing. */
  ghost function After(eq: Fold, read: Reading, c: State, call: Call): State {
    match call
    case Add(t) =>
      if HoldsOf(c.addFilter, t) && (forall u :: u in c.stored ==> u.filename != t.filename)
      then c.(stored := c.stored + iset{t}) else c
    case Remove(t) =>
      if PassesLive(eq, read, c.live, t) && HoldsOf(c.filter, t) then c.(stored := c.stored - iset{t}) else c
    case SetFilter(f) => c.(filter := f, live := None)
    case SetAddFilter(f) => c.(addFilter := f)
    case SetLive(text) => if read.Accepts(text) then c.(live := text) else c
  }

  ghost function AfterAll(eq: Fold, read: Reading, c: State, calls: seq<Call>, n: nat): State
    requires n <= |calls|
  { if n == 0 then c else After(eq, read, AfterAll(eq, read, c, calls, n - 1), calls[n - 1]) }

  /** After any history of sound live filters the store is what the calls make of it, and the view is that of filtering
      the whole store. */
  method Run(lib: Library, calls: seq<Call>)
    requires lib.Valid() && Sound(lib.read, lib.live)
    requires forall i :: 0 <= i < |calls| && calls[i].SetLive? ==> Sound(lib.read, calls[i].text)
    modifies lib, lib.buckets
    ensures lib.Valid() && Sound(lib.read, lib.live)
    ensures lib.Now() == AfterAll(lib.eq, lib.read, old(lib.Now()), calls, |calls|)
  {
    var i := 0;
    while i < |calls|
      invariant i <= |calls| && lib.Valid() && Sound(lib.read, lib.live)
      invariant lib.Now() == AfterAll(lib.eq, lib.read, old(lib.Now()), calls, i)
    {
      Do(lib, calls[i]);
      i := i + 1;
    }
  }

  method Do(lib: Library, call: Call)
    requires lib.Valid() && Sound(lib.read, lib.live)
    requires call.SetLive? ==> Sound(lib.read, call.text)
    modifies lib, lib.buckets
    ensures lib.Valid() && Sound(lib.read, lib.live)
    ensures lib.Now() == After(lib.eq, lib.read, old(lib.Now()), call)
  {
    match call {
      case Add(t) => lib.Add(t);
      case Remove(t) => var removed := lib.Remove(t);
      case SetFilter(f) => lib.SetFilter(f);
      case SetAddFilter(f) => lib.SetAddFilter(f);
      case SetLive(text) =>
        forall t | lib.read.Accepts(text) && PassesLive(lib.eq, lib.read, text, t)
          ensures !Loses(lib.eq, lib.read, lib.live, text, t)
        {
          SoundKeeps(lib.eq, lib.read, lib.live, text, t);
        }
        lib.SetLive(text);
    }
  }

  lemma SoundKeeps(eq: Fold, read: Reading, before: Option<string>, text: Option<string>, t: Track)
    requires Sound(read, before) && Sound(read, text) && PassesLive(eq, read, text, t)
    ensures !Loses(eq, read, before, text, t)
  {
    if Extends(before, read.Parsed(before), text, read.Parsed(text)) && read.Parsed(before).Some? {
      assert SaidBefore(read, before.value, t);
    }
  }

  /** A live filter of one space hides everything, and typing a word after it brings nothing back. */
  method SpaceThenWord(read: Reading) returns (lib: Library)
    ensures fresh(lib) && lib.StoreOk() && !lib.Agrees()
  {
    var same: Fold := (a, b) => a == b;
    lib := new Library(same, _ => 0, read);
    var t := Track("song", ["ab"], "song");
    SpaceLosesWord(same, read, t);
    lib.Add(t);
    assert lib.Stored(t);
    lib.SetLive(Some(" "));
    lib.SetLive(Some(" a"));
    assert lib.Stored(t) && lib.Shown(t);
  }

  lemma SpaceLosesWord(same: Fold, read: Reading, t: Track)
    requires same('a', 'a') && t.tags == ["ab"]
    ensures PassesLive(same, read, Some(" a"), t) && Loses(same, read, Some(" "), Some(" a"), t)
    ensures read.Accepts(Some(" a")) && read.Accepts(Some(" "))
  {
    var text := " a";
    assert !IsShort(" a") && !IsShort(" ");
    assert Words(" ", 0) == [];
    assert WordEnd(text, 1) == 2 && text[1..2] == "a" && Words(text, 1) == ["a"];
    assert OccursAt(" ", text, 0);
    assert Literally(same, "a", "ab"[0..]);
    assert Contains(same, Searched(t)[0], "a");
  }

  /** Nothing is lost when a filter is typed on and its expression is the old one with more operands behind `&`. */
  lemma TypedOn(eq: Fold, read: Reading, before: Option<string>, text: Option<string>, u: Expr.Unit, c: Expr.Chain,
                d: Expr.Chain, t: Track)
    requires Expr.WfUnit(u) && Expr.WfChain(c) && Expr.WfChain(d) && Expr.AndsOnly(d)
    requires Expr.WfChain(Expr.Followed(c, d))
    requires read.Parsed(before) == Some(Expr.BuildChain(Expr.BuildUnit(u), c))
    requires read.Parsed(text) == Some(Expr.BuildChain(Expr.BuildUnit(u), Expr.Followed(c, d)))
    requires PassesLive(eq, read, text, t)
    ensures !Loses(eq, read, before, text, t)
  {
    Expr.AndsShrink(u, c, d, (key, operand) => read.holds(t, key, operand));
  }

  /** Nor when the expression is the old one with one more operator, whichever it is, and operand. */
  lemma TypedOperand(eq: Fold, read: Reading, before: Option<string>, text: Option<string>, u: Expr.Unit, c: Expr.Chain,
                     op: Expr.BoolOp, v: Expr.Unit, t: Track)
    requires Expr.WfUnit(u) && Expr.WfChain(c) && Expr.WfUnit(v)
             && Expr.WfChain(Expr.Followed(c, Expr.More(op, v, Expr.End)))
    requires read.Parsed(before) == Some(Expr.BuildChain(Expr.BuildUnit(u), c))
    requires read.Parsed(text) ==
             Some(Expr.BuildChain(Expr.BuildUnit(u), Expr.Followed(c, Expr.More(op, v, Expr.End))))
    requires PassesLive(eq, read, text, t)
    ensures !Loses(eq, read, before, text, t)
  {
    if Expr.Harmless(read.Parsed(text).value) {
      Typing.HarmlessShrinks(Expr.BuildUnit(u), c, op, v, (key, operand) => read.holds(t, key, operand));
    }
  }

  function Number(op: Expr.CmpOp): Expr.Expr { Expr.Leaf("tracknumber", Expr.IntOperand(op, "1")) }

  /** What the short form `~n1`, for `=`, and `~n1-`, for `>=`, is expanded to. */
  function NumberTokens(op: Expr.CmpOp): seq<Expr.Token> {
    [Expr.TLParen, Expr.TKey("tracknumber"), Expr.TCmp(op), Expr.TIntOrKey("1"), Expr.TRParen]
  }

  lemma NumberParses(op: Expr.CmpOp)
    ensures Expr.Tree(NumberTokens(op)) == Number(op)
  {
    var ts := NumberTokens(op);
    var inner := ts[1..];
    assert inner[3..] == [Expr.TRParen];
    assert Expr.ParsedKey(inner) == Expr.Done(Number(op), [Expr.TRParen]);
    assert [Expr.TRParen][1..] == [];
    assert Expr.ParsedAll(inner, true) == Expr.Done(Number(op), []);
    assert Expr.ParsedOne(ts) == Expr.Done(Number(op), []);
  }

  /** `~n1` is read as an equation and `~n1-` as a lower bound. */
  predicate ReadsNumbers(read: Reading) {
    && read.parse("~n1") == Some(Expr.Tree(NumberTokens(Expr.Eq)))
    && read.parse("~n1-") == Some(Expr.Tree(NumberTokens(Expr.Ge)))
  }

  lemma RangeLoses(eq: Fold, read: Reading, before: string, text: string, t: Track)
    requires ReadsNumbers(read) && before == "~n1" && text == "~n1-"
    requires read.Says(Number(Expr.Ge), t) && !read.Says(Number(Expr.Eq), t)
    ensures read.Accepts(Some(before)) && read.Accepts(Some(text))
    ensures PassesLive(eq, read, Some(text), t) && Loses(eq, read, Some(before), Some(text), t)
  {
    NumberParses(Expr.Eq);
    NumberParses(Expr.Ge);
    assert IsShort(before) && IsShort(text);
    assert OccursAt(before, text, 0);
  }

  /** Typing `-` after the number of a track turns `is` into `is at least`, which counts as harmless: a track with a
      larger number stays hidden. */
  method RangeOpened(eq: Fold, read: Reading, t: Track) returns (lib: Library)
    requires ReadsNumbers(read) && read.Says(Number(Expr.Ge), t) && !read.Says(Number(Expr.Eq), t)
    ensures fresh(lib) && lib.StoreOk() && !lib.Agrees()
  {
    var before, text := "~n1", "~n1-";
    RangeLoses(eq, read, before, text, t);
    lib := new Library(eq, _ => 0, read);
    lib.Add(t);
    assert lib.Stored(t);
    lib.SetLive(Some(before));
    lib.SetLive(Some(text));
    assert lib.Stored(t) && lib.Shown(t);
  }
}
