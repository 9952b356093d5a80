/**
 * The list of sentences that the Minesweeper AI keeps, and what each step of `add_knowledge`
 * does to it, as functions on values: marking cells across the list, subset inference,
 * flagging resolved sentences, `list.remove` and the clean-up of empty sentences.
 */
module KnowledgeBase {
  import opened Wrappers
  import opened SetCounting
  import opened Grid
  import opened Sentences

  /** Every sentence of `kb` is true of the mine placement `mines`. */
  ghost predicate AllTrueOf(kb: seq<Sentence>, mines: set<Cell>) {
    forall s :: s in kb ==> s.TrueOf(mines)
  }

  // ---------------------------------------------------------------------------------------
  // Resolving one cell, or a set of cells, in every sentence

  /** The loop of `MinesweeperAI.mark_mine`: each sentence holding `cell` resolves it as a mine. */
  function MarkMineAll(kb: seq<Sentence>, cell: Cell): (r: seq<Sentence>)
    ensures |r| == |kb|
    ensures forall k :: 0 <= k < |r| ==>
      r[k].cells == kb[k].cells - {cell} &&
      r[k].count == (if cell in kb[k].cells then kb[k].count - 1 else kb[k].count)
  {
    seq(|kb|, k requires 0 <= k < |kb| => if cell in kb[k].cells then kb[k].MarkMine(cell) else kb[k])
  }

  /** The loop of `MinesweeperAI.mark_safe`: every sentence drops `cell` and keeps its count. */
  function MarkSafeAll(kb: seq<Sentence>, cell: Cell): (r: seq<Sentence>)
    ensures |r| == |kb|
    ensures forall k :: 0 <= k < |r| ==> r[k].cells == kb[k].cells - {cell} && r[k].count == kb[k].count
  {
    seq(|kb|, k requires 0 <= k < |kb| => kb[k].MarkSafe(cell))
  }

  /** The knowledge after every cell of `cells` has been marked as a mine, in whatever order. */
  function MarkMinesAll(kb: seq<Sentence>, cells: set<Cell>): seq<Sentence>
  {
    seq(|kb|, k requires 0 <= k < |kb| =>
      Sentence(kb[k].cells - cells, kb[k].count - |kb[k].cells * cells|))
  }

  /** The knowledge after every cell of `cells` has been marked as safe, in whatever order. */
  function MarkSafesAll(kb: seq<Sentence>, cells: set<Cell>): seq<Sentence>
  {
    seq(|kb|, k requires 0 <= k < |kb| => Sentence(kb[k].cells - cells, kb[k].count))
  }

  lemma MarkMinesAllNone(kb: seq<Sentence>)
    ensures MarkMinesAll(kb, {}) == kb
  {
    var r := MarkMinesAll(kb, {});
    forall k | 0 <= k < |kb| ensures r[k] == kb[k] {
      assert kb[k].cells * {} == {};
    }
  }

  lemma MarkSafesAllNone(kb: seq<Sentence>)
    ensures MarkSafesAll(kb, {}) == kb
  {
    var r := MarkSafesAll(kb, {});
    forall k | 0 <= k < |kb| ensures r[k] == kb[k] {
    }
  }

  /** Marking one more mine after a set of mines is marking the larger set. */
  lemma MarkMinesAllStep(kb: seq<Sentence>, done: set<Cell>, cell: Cell)
    requires cell !in done
    ensures MarkMineAll(MarkMinesAll(kb, done), cell) == MarkMinesAll(kb, done + {cell})
  {
    var a := MarkMineAll(MarkMinesAll(kb, done), cell);
    var b := MarkMinesAll(kb, done + {cell});
    forall k | 0 <= k < |kb| ensures a[k] == b[k] {
      var cs := kb[k].cells;
      if cell in cs {
        assert cs * (done + {cell}) == cs * done + {cell};
      } else {
        assert cs * (done + {cell}) == cs * done;
      }
    }
  }

  /** Marking one more safe cell after a set of safe cells is marking the larger set. */
  lemma MarkSafesAllStep(kb: seq<Sentence>, done: set<Cell>, cell: Cell)
    ensures MarkSafeAll(MarkSafesAll(kb, done), cell) == MarkSafesAll(kb, done + {cell})
  {
    var a := MarkSafeAll(MarkSafesAll(kb, done), cell);
    var b := MarkSafesAll(kb, done + {cell});
    forall k | 0 <= k < |kb| ensures a[k] == b[k] {
    }
  }

  /** Marking real mines keeps true sentences true. */
  lemma MarkMinesAllKeepsTruth(kb: seq<Sentence>, cells: set<Cell>, mines: set<Cell>)
    requires cells <= mines && AllTrueOf(kb, mines)
    ensures AllTrueOf(MarkMinesAll(kb, cells), mines)
  {
    var r := MarkMinesAll(kb, cells);
    forall s | s in r ensures s.TrueOf(mines) {
      var k :| 0 <= k < |r| && r[k] == s;
      var cs := kb[k].cells;
      assert kb[k].TrueOf(mines);
      SplitCardinality(cs * mines, cells);
      assert cs * mines - cells == (cs - cells) * mines;
      assert cs * mines * cells == cs * cells;
    }
  }

  /** Marking cells that are not mines keeps true sentences true. */
  lemma MarkSafesAllKeepsTruth(kb: seq<Sentence>, cells: set<Cell>, mines: set<Cell>)
    requires cells !! mines && AllTrueOf(kb, mines)
    ensures AllTrueOf(MarkSafesAll(kb, cells), mines)
  {
    var r := MarkSafesAll(kb, cells);
    forall s | s in r ensures s.TrueOf(mines) {
      var k :| 0 <= k < |r| && r[k] == s;
      assert kb[k].TrueOf(mines);
      assert (kb[k].cells - cells) * mines == kb[k].cells * mines;
    }
  }

  // ---------------------------------------------------------------------------------------
  // Subset inference between pairs of sentences

  /**
   * What the pair (s1, s2) contributes: the difference sentence, when the two differ, both
   * are non-empty, s2's cells are a subset of s1's and the difference has cells.
   */
  function Derive(s1: Sentence, s2: Sentence): Option<Sentence>
  {
    if s1 != s2 && s2.cells <= s1.cells && s1.cells != {} && s2.cells != {} && s1.cells - s2.cells != {}
    then Some(Sentence(s1.cells - s2.cells, s1.count - s2.count))
    else None
  }

  function Emitted(d: Option<Sentence>): seq<Sentence> {
    if d.Some? then [d.value] else []
  }

  /** The difference sentences of `s1` with each of `others`, in the order of `others`. */
  function DerivedWith(s1: Sentence, others: seq<Sentence>): seq<Sentence>
  {
    if others == [] then []
    else DerivedWith(s1, others[..|others| - 1]) + Emitted(Derive(s1, others[|others| - 1]))
  }

  /** The difference sentences of every sentence of `firsts` with every sentence of `kb`. */
  function DerivedFrom(firsts: seq<Sentence>, kb: seq<Sentence>): seq<Sentence>
  {
    if firsts == [] then []
    else DerivedFrom(firsts[..|firsts| - 1], kb) + DerivedWith(firsts[|firsts| - 1], kb)
  }

  /** All difference sentences, in the order of the nested loops over the knowledge. */
  function Derived(kb: seq<Sentence>): seq<Sentence> {
    DerivedFrom(kb, kb)
  }

  /**
   * One more step of the inner loop over the knowledge: `ds` holds what the loops have
   * derived so far, the sentences derived before (`pre`) and those of `s1` with `kb[..j]`.
   */
  lemma DerivedWithStep(pre: seq<Sentence>, s1: Sentence, kb: seq<Sentence>, j: int, ds: seq<Sentence>)
    requires 0 <= j < |kb| && ds == pre + DerivedWith(s1, kb[..j])
    ensures Derive(s1, kb[j]).None? ==> ds == pre + DerivedWith(s1, kb[..j + 1])
    ensures Derive(s1, kb[j]).Some? ==> ds + [Derive(s1, kb[j]).value] == pre + DerivedWith(s1, kb[..j + 1])
  {
    assert kb[..j + 1][..j] == kb[..j];
  }

  /** One more step of the outer loop over the knowledge. */
  lemma DerivedFromStep(kb: seq<Sentence>, i: int, ds: seq<Sentence>)
    requires 0 <= i < |kb| && ds == DerivedFrom(kb[..i], kb) + DerivedWith(kb[i], kb[..|kb|])
    ensures ds == DerivedFrom(kb[..i + 1], kb)
  {
    var firsts := kb[..i + 1];
    assert firsts[..|firsts| - 1] == kb[..i];
    assert firsts[|firsts| - 1] == kb[i];
    assert kb[..|kb|] == kb;
  }

  lemma {:induction false} DerivedWithMembers(s1: Sentence, others: seq<Sentence>, d: Sentence)
    ensures d in DerivedWith(s1, others)
        <==> exists j :: 0 <= j < |others| && Derive(s1, others[j]) == Some(d)
  {
    if others != [] {
      var init := others[..|others| - 1];
      DerivedWithMembers(s1, init, d);
      if exists j :: 0 <= j < |others| && Derive(s1, others[j]) == Some(d) {
        var j :| 0 <= j < |others| && Derive(s1, others[j]) == Some(d);
        if j < |init| {
          assert Derive(s1, init[j]) == Some(d);
        }
      }
      if exists j :: 0 <= j < |init| && Derive(s1, init[j]) == Some(d) {
        var j :| 0 <= j < |init| && Derive(s1, init[j]) == Some(d);
        assert Derive(s1, others[j]) == Some(d);
      }
    }
  }

  lemma {:induction false} DerivedFromMembers(firsts: seq<Sentence>, kb: seq<Sentence>, d: Sentence)
    ensures d in DerivedFrom(firsts, kb)
        <==> exists i, j :: 0 <= i < |firsts| && 0 <= j < |kb| && Derive(firsts[i], kb[j]) == Some(d)
  {
    if firsts != [] {
      var init := firsts[..|firsts| - 1];
      var last := firsts[|firsts| - 1];
      DerivedFromMembers(init, kb, d);
      DerivedWithMembers(last, kb, d);
      if d in DerivedFrom(init, kb) {
        var i, j :| 0 <= i < |init| && 0 <= j < |kb| && Derive(init[i], kb[j]) == Some(d);
        assert firsts[i] == init[i];
      } else if d in DerivedWith(last, kb) {
        var j :| 0 <= j < |kb| && Derive(last, kb[j]) == Some(d);
        assert Derive(firsts[|firsts| - 1], kb[j]) == Some(d);
      } else {
        forall i, j | 0 <= i < |firsts| && 0 <= j < |kb| ensures Derive(firsts[i], kb[j]) != Some(d) {
          if i < |init| {
            assert firsts[i] == init[i];
          }
        }
      }
    }
  }

  /**
   * A sentence is inferred exactly when it is the difference of two distinct non-empty
   * sentences of the knowledge, the second a subset of the first, the difference non-empty.
   */
  lemma DerivedMembers(kb: seq<Sentence>, d: Sentence)
    ensures d in Derived(kb) <==>
      exists i, j :: 0 <= i < |kb| && 0 <= j < |kb| && kb[i] != kb[j]
        && kb[j].cells <= kb[i].cells && kb[j].cells != {} && kb[i].cells - kb[j].cells != {}
        && d == Sentence(kb[i].cells - kb[j].cells, kb[i].count - kb[j].count)
  {
    DerivedFromMembers(kb, kb, d);
  }

  /** The difference of two true sentences is true. */
  lemma DeriveKeepsTruth(s1: Sentence, s2: Sentence, mines: set<Cell>)
    requires s1.TrueOf(mines) && s2.TrueOf(mines) && Derive(s1, s2).Some?
    ensures Derive(s1, s2).value.TrueOf(mines)
  {
    SplitCardinality(s1.cells * mines, s2.cells);
    assert s1.cells * mines - s2.cells == (s1.cells - s2.cells) * mines;
    assert s1.cells * mines * s2.cells == s2.cells * mines;
  }

  lemma DerivedKeepsTruth(kb: seq<Sentence>, mines: set<Cell>)
    requires AllTrueOf(kb, mines)
    ensures AllTrueOf(Derived(kb), mines)
  {
    forall d | d in Derived(kb) ensures d.TrueOf(mines) {
      DerivedFromMembers(kb, kb, d);
      var i, j :| 0 <= i < |kb| && 0 <= j < |kb| && Derive(kb[i], kb[j]) == Some(d);
      DeriveKeepsTruth(kb[i], kb[j], mines);
    }
  }

  // ---------------------------------------------------------------------------------------
  // Cells concluded from a list of sentences, and the sentences recorded for later

  /** The union of the cells of the sentences whose count equals their size. */
  function MinesFrom(ds: seq<Sentence>): set<Cell>
  {
    if ds == [] then {}
    else
      var d := ds[|ds| - 1];
      MinesFrom(ds[..|ds| - 1]) + (if |d.cells| == d.count then d.cells else {})
  }

  /** The union of the cells of the sentences whose count is zero. */
  function SafesFrom(ds: seq<Sentence>): set<Cell>
  {
    if ds == [] then {}
    else
      var d := ds[|ds| - 1];
      SafesFrom(ds[..|ds| - 1]) + (if d.count == 0 then d.cells else {})
  }

  /** The sentences with a non-zero count, each structurally distinct value once, first first. */
  function InferredFrom(ds: seq<Sentence>): seq<Sentence>
  {
    if ds == [] then []
    else
      var prev := InferredFrom(ds[..|ds| - 1]);
      var d := ds[|ds| - 1];
      if d.count != 0 && d !in prev then prev + [d] else prev
  }

  /** What one more sentence adds to the conclusions. */
  lemma ConclusionsAppend(ds: seq<Sentence>, d: Sentence)
    ensures MinesFrom(ds + [d]) == MinesFrom(ds) + (if |d.cells| == d.count then d.cells else {})
    ensures SafesFrom(ds + [d]) == SafesFrom(ds) + (if d.count == 0 then d.cells else {})
    ensures InferredFrom(ds + [d]) == if d.count != 0 && d !in InferredFrom(ds) then InferredFrom(ds) + [d] else InferredFrom(ds)
  {
    assert (ds + [d])[..|ds|] == ds;
  }

  /**
   * One more difference sentence `d` in the subset-inference loop, in the cases that loop
   * distinguishes: `m`, `s` and `inf` are what it has collected from `ds`.
   */
  lemma InferenceStep(ds: seq<Sentence>, d: Sentence, m: set<Cell>, s: set<Cell>, inf: seq<Sentence>)
    requires m == MinesFrom(ds) && s == SafesFrom(ds) && inf == InferredFrom(ds)
    ensures |d.cells| == d.count ==> m + d.cells == MinesFrom(ds + [d])
    ensures |d.cells| != d.count ==> m == MinesFrom(ds + [d])
    ensures d.count == 0 ==> s + d.cells == SafesFrom(ds + [d]) && inf == InferredFrom(ds + [d])
    ensures d.count != 0 ==> s == SafesFrom(ds + [d])
    ensures d.count != 0 && d !in inf ==> inf + [d] == InferredFrom(ds + [d])
    ensures d.count != 0 && d in inf ==> inf == InferredFrom(ds + [d])
  {
    ConclusionsAppend(ds, d);
  }

  ghost predicate NoDuplicates(s: seq<Sentence>) {
    forall i, j :: 0 <= i < j < |s| ==> s[i] != s[j]
  }

  lemma {:induction false} MinesFromMembers(ds: seq<Sentence>, c: Cell)
    ensures c in MinesFrom(ds) <==> exists k :: 0 <= k < |ds| && |ds[k].cells| == ds[k].count && c in ds[k].cells
  {
    if ds != [] {
      var init := ds[..|ds| - 1];
      MinesFromMembers(init, c);
      if exists k :: 0 <= k < |ds| && |ds[k].cells| == ds[k].count && c in ds[k].cells {
        var k :| 0 <= k < |ds| && |ds[k].cells| == ds[k].count && c in ds[k].cells;
        if k < |init| { assert init[k] == ds[k]; }
      }
      if exists k :: 0 <= k < |init| && |init[k].cells| == init[k].count && c in init[k].cells {
        var k :| 0 <= k < |init| && |init[k].cells| == init[k].count && c in init[k].cells;
        assert ds[k] == init[k];
      }
    }
  }

  lemma {:induction false} SafesFromMembers(ds: seq<Sentence>, c: Cell)
    ensures c in SafesFrom(ds) <==> exists k :: 0 <= k < |ds| && ds[k].count == 0 && c in ds[k].cells
  {
    if ds != [] {
      var init := ds[..|ds| - 1];
      SafesFromMembers(init, c);
      if exists k :: 0 <= k < |ds| && ds[k].count == 0 && c in ds[k].cells {
        var k :| 0 <= k < |ds| && ds[k].count == 0 && c in ds[k].cells;
        if k < |init| { assert init[k] == ds[k]; }
      }
      if exists k :: 0 <= k < |init| && init[k].count == 0 && c in init[k].cells {
        var k :| 0 <= k < |init| && init[k].count == 0 && c in init[k].cells;
        assert ds[k] == init[k];
      }
    }
  }

  /** From true sentences, the concluded mines are mines and the concluded safe cells are not. */
  lemma {:induction false} ConclusionsSound(ds: seq<Sentence>, mines: set<Cell>)
    requires AllTrueOf(ds, mines)
    ensures MinesFrom(ds) <= mines && SafesFrom(ds) !! mines
  {
    if ds != [] {
      var init := ds[..|ds| - 1];
      var d := ds[|ds| - 1];
      assert AllTrueOf(init, mines) by {
        forall s | s in init ensures s.TrueOf(mines) { assert s in ds; }
      }
      ConclusionsSound(init, mines);
      if |d.cells| == d.count { AllMinesWhenFull(d, mines); }
      if d.count == 0 { NoMinesWhenZero(d, mines); }
    }
  }

  /** Each value is recorded once, and exactly the sentences with a non-zero count are. */
  lemma {:induction false} InferredFromSpec(ds: seq<Sentence>)
    ensures NoDuplicates(InferredFrom(ds))
    ensures forall x :: x in InferredFrom(ds) <==> x in ds && x.count != 0
  {
    if ds != [] {
      var init := ds[..|ds| - 1];
      InferredFromSpec(init);
      assert ds == init + [ds[|ds| - 1]];
    }
  }

  /**
   * A difference sentence whose count equals its size is concluded to be all mines and is
   * also recorded as a sentence: the two tests are an `if` followed by an `if`/`else`.
   */
  lemma FullDifferenceIsAlsoRecorded(kb: seq<Sentence>, i: int, j: int)
    requires 0 <= i < |kb| && 0 <= j < |kb| && Derive(kb[i], kb[j]).Some?
    requires |Derive(kb[i], kb[j]).value.cells| == Derive(kb[i], kb[j]).value.count
    ensures Derive(kb[i], kb[j]).value.cells <= MinesFrom(Derived(kb))
    ensures Derive(kb[i], kb[j]).value in InferredFrom(Derived(kb))
  {
    var d := Derive(kb[i], kb[j]).value;
    DerivedFromMembers(kb, kb, d);
    var ds := Derived(kb);
    var k :| 0 <= k < |ds| && ds[k] == d;
    forall c | c in d.cells ensures c in MinesFrom(ds) {
      MinesFromMembers(ds, c);
    }
    InferredFromSpec(ds);
  }

  // ---------------------------------------------------------------------------------------
  // Flagging resolved sentences and removing them with `list.remove`

  /** A sentence the clean-up step flags: all its cells are mines, or none is. */
  predicate Resolved(s: Sentence) {
    |s.cells| == s.count || s.count == 0
  }

  function Flagged(kb: seq<Sentence>): seq<Sentence>
  {
    if kb == [] then []
    else Flagged(kb[..|kb| - 1]) + (if Resolved(kb[|kb| - 1]) then [kb[|kb| - 1]] else [])
  }

  function Kept(kb: seq<Sentence>): seq<Sentence>
  {
    if kb == [] then []
    else Kept(kb[..|kb| - 1]) + (if Resolved(kb[|kb| - 1]) then [] else [kb[|kb| - 1]])
  }

  /** The index `list.remove` finds: the first element structurally equal to `x`. */
  function FirstIndex(kb: seq<Sentence>, x: Sentence): (k: nat)
    requires x in kb
    ensures k < |kb| && kb[k] == x && x !in kb[..k]
  {
    if kb[0] == x then 0 else 1 + FirstIndex(kb[1..], x)
  }

  /** `a` is `b` with some elements deleted: the elements of `a` occur in `b` in the same order. */
  predicate SubsequenceOf(a: seq<Sentence>, b: seq<Sentence>)
    decreases |b|
  {
    |a| <= |b|
    && (a == []
        || (b != [] && ((a[0] == b[0] && SubsequenceOf(a[1..], b[1..])) || SubsequenceOf(a, b[1..]))))
  }

  lemma {:induction false} SubsequenceReflexive(a: seq<Sentence>)
    ensures SubsequenceOf(a, a)
    decreases |a|
  {
    if a != [] {
      SubsequenceReflexive(a[1..]);
    }
  }

  lemma {:induction false} SubsequenceTransitive(a: seq<Sentence>, b: seq<Sentence>, c: seq<Sentence>)
    requires SubsequenceOf(a, b) && SubsequenceOf(b, c)
    ensures SubsequenceOf(a, c)
    decreases |c|
  {
    if a != [] && SubsequenceOf(b, c[1..]) {
      SubsequenceTransitive(a, b, c[1..]);
    } else if a != [] {
      if a[0] == b[0] && SubsequenceOf(a[1..], b[1..]) {
        SubsequenceTransitive(a[1..], b[1..], c[1..]);
      } else {
        SubsequenceTransitive(a, b[1..], c[1..]);
      }
    }
  }

  /** Deleting the element at position `k` keeps the others in order. */
  lemma {:induction false} SubsequenceDrop(kb: seq<Sentence>, k: int)
    requires 0 <= k < |kb|
    ensures SubsequenceOf(kb[..k] + kb[k + 1..], kb)
    decreases k
  {
    if k == 0 {
      assert kb[..0] + kb[1..] == kb[1..];
      SubsequenceReflexive(kb[1..]);
    } else {
      var a := kb[..k] + kb[k + 1..];
      SubsequenceDrop(kb[1..], k - 1);
      assert a[1..] == kb[1..][..k - 1] + kb[1..][k..];
    }
  }

  /** `list.remove(x)`: drops the first element equal to `x`; Python raises when there is none. */
  function RemoveFirst(kb: seq<Sentence>, x: Sentence): (r: seq<Sentence>)
    requires x in kb
    ensures |r| == |kb| - 1
    ensures multiset(r) == multiset(kb) - multiset{x}
    ensures exists k :: 0 <= k < |kb| && kb[k] == x && x !in kb[..k] && r == kb[..k] + kb[k + 1..]
  {
    var k := FirstIndex(kb, x);
    assert kb == kb[..k] + [kb[k]] + kb[k + 1..];
    kb[..k] + kb[k + 1..]
  }

  /** `list.remove` of each element of `xs` in turn. */
  function RemoveEach(kb: seq<Sentence>, xs: seq<Sentence>): (r: seq<Sentence>)
    requires multiset(xs) <= multiset(kb)
    ensures multiset(r) == multiset(kb) - multiset(xs)
    ensures SubsequenceOf(r, kb)
  {
    if xs == [] then
      SubsequenceReflexive(kb);
      kb
    else
      var init := xs[..|xs| - 1];
      var x := xs[|xs| - 1];
      assert xs == init + [x];
      var rest := RemoveEach(kb, init);
      assert x in multiset(rest);
      RemoveFirstKeepsOrder(rest, x);
      SubsequenceTransitive(RemoveFirst(rest, x), rest, kb);
      RemoveFirst(rest, x)
  }

  lemma RemoveFirstKeepsOrder(kb: seq<Sentence>, x: Sentence)
    requires x in kb
    ensures SubsequenceOf(RemoveFirst(kb, x), kb)
  {
    SubsequenceDrop(kb, FirstIndex(kb, x));
  }

  /** One more `list.remove` of the next element of `xs`, which is still present. */
  lemma RemoveEachStep(kb: seq<Sentence>, xs: seq<Sentence>, i: int)
    requires multiset(xs) <= multiset(kb) && 0 <= i < |xs|
    ensures multiset(xs[..i]) <= multiset(kb) && multiset(xs[..i + 1]) <= multiset(kb)
    ensures xs[i] in RemoveEach(kb, xs[..i])
    ensures RemoveEach(kb, xs[..i + 1]) == RemoveFirst(RemoveEach(kb, xs[..i]), xs[i])
  {
    assert xs[..i + 1] == xs[..i] + [xs[i]];
    PrefixIncluded(kb, xs, i + 1);
    RemoveEachSnoc(kb, xs[..i], xs[i]);
  }

  /** Every prefix of `xs` is included in what includes `xs`. */
  lemma PrefixIncluded(kb: seq<Sentence>, xs: seq<Sentence>, j: int)
    requires multiset(xs) <= multiset(kb) && 0 <= j <= |xs|
    ensures multiset(xs[..j]) <= multiset(kb)
  {
    assert xs == xs[..j] + xs[j..];
    assert multiset(xs) == multiset(xs[..j]) + multiset(xs[j..]);
  }

  /** Removing `ys` and then `y` is removing `ys + [y]`; `y` is still present after `ys`. */
  lemma RemoveEachSnoc(kb: seq<Sentence>, ys: seq<Sentence>, y: Sentence)
    requires multiset(ys + [y]) <= multiset(kb)
    ensures multiset(ys) <= multiset(kb)
    ensures y in RemoveEach(kb, ys)
    ensures RemoveEach(kb, ys + [y]) == RemoveFirst(RemoveEach(kb, ys), y)
  {
    var zs := ys + [y];
    assert zs[..|zs| - 1] == ys && zs[|zs| - 1] == y;
    assert multiset(zs) == multiset(ys) + multiset{y};
    assert y in multiset(RemoveEach(kb, ys));
  }

  /**
   * One more step of the loop that collects the conclusions of resolved sentences, in the
   * three cases that loop distinguishes: `m`, `s` and `f` are what it has collected from the
   * sentences before position `i`, on top of `m0` and `s0`.
   */
  lemma ResolvedStep(kb: seq<Sentence>, i: int, m0: set<Cell>, s0: set<Cell>, m: set<Cell>, s: set<Cell>, f: seq<Sentence>)
    requires 0 <= i < |kb|
    requires m == m0 + MinesFrom(kb[..i]) && s == s0 + SafesFrom(kb[..i]) && f == Flagged(kb[..i])
    ensures |kb[i].cells| == kb[i].count ==>
      m + kb[i].cells == m0 + MinesFrom(kb[..i + 1]) && s == s0 + SafesFrom(kb[..i + 1])
      && f + [kb[i]] == Flagged(kb[..i + 1])
    ensures |kb[i].cells| != kb[i].count && kb[i].count == 0 ==>
      m == m0 + MinesFrom(kb[..i + 1]) && s + kb[i].cells == s0 + SafesFrom(kb[..i + 1])
      && f + [kb[i]] == Flagged(kb[..i + 1])
    ensures |kb[i].cells| != kb[i].count && kb[i].count != 0 ==>
      m == m0 + MinesFrom(kb[..i + 1]) && s == s0 + SafesFrom(kb[..i + 1]) && f == Flagged(kb[..i + 1])
  {
    PrefixStep(kb, i);
    FlaggedLast(kb[..i], kb[i]);
    if |kb[i].cells| == kb[i].count && kb[i].count == 0 {
      assert kb[i].cells == {};
    }
  }

  lemma PrefixStep(kb: seq<Sentence>, i: int)
    requires 0 <= i < |kb|
    ensures kb[..i + 1] == kb[..i] + [kb[i]]
    ensures MinesFrom(kb[..i + 1]) == MinesFrom(kb[..i]) + (if |kb[i].cells| == kb[i].count then kb[i].cells else {})
    ensures SafesFrom(kb[..i + 1]) == SafesFrom(kb[..i]) + (if kb[i].count == 0 then kb[i].cells else {})
  {
    assert kb[..i + 1] == kb[..i] + [kb[i]];
    ConclusionsAppend(kb[..i], kb[i]);
  }

  lemma FirstIndexIs(kb: seq<Sentence>, x: Sentence, k: int)
    requires 0 <= k < |kb| && kb[k] == x && x !in kb[..k]
    ensures FirstIndex(kb, x) == k
  {
  }

  lemma RemoveFirstAppend(a: seq<Sentence>, x: Sentence, y: Sentence)
    requires y in a
    ensures RemoveFirst(a + [x], y) == RemoveFirst(a, y) + [x]
  {
    var k := FirstIndex(a, y);
    assert (a + [x])[..k] == a[..k];
    FirstIndexIs(a + [x], y, k);
    assert (a + [x])[k + 1..] == a[k + 1..] + [x];
  }

  lemma RemoveFirstLast(a: seq<Sentence>, x: Sentence)
    requires x !in a
    ensures RemoveFirst(a + [x], x) == a
  {
    assert (a + [x])[..|a|] == a;
    FirstIndexIs(a + [x], x, |a|);
  }

  lemma {:induction false} RemoveEachAppend(a: seq<Sentence>, x: Sentence, ys: seq<Sentence>)
    requires multiset(ys) <= multiset(a)
    ensures multiset(ys) <= multiset(a + [x])
    ensures RemoveEach(a + [x], ys) == RemoveEach(a, ys) + [x]
  {
    if ys != [] {
      var init := ys[..|ys| - 1];
      var y := ys[|ys| - 1];
      assert ys == init + [y];
      RemoveEachAppend(a, x, init);
      assert y in multiset(RemoveEach(a, init));
      RemoveFirstAppend(RemoveEach(a, init), x, y);
    }
  }

  lemma {:induction false} KeptUnresolved(kb: seq<Sentence>)
    ensures forall s :: s in Kept(kb) ==> !Resolved(s)
  {
    if kb != [] { KeptUnresolved(kb[..|kb| - 1]); }
  }

  /** What one more sentence adds to the flagged and to the kept sentences. */
  lemma FlaggedLast(a: seq<Sentence>, x: Sentence)
    ensures Flagged(a + [x]) == Flagged(a) + (if Resolved(x) then [x] else [])
    ensures Kept(a + [x]) == Kept(a) + (if Resolved(x) then [] else [x])
  {
    assert (a + [x])[..|a|] == a;
  }

  /**
   * Removing every flagged sentence with `list.remove` never fails, and leaves exactly the
   * unflagged sentences, in their order.
   */
  lemma {:induction false} RemoveFlaggedKeepsRest(kb: seq<Sentence>)
    ensures multiset(Flagged(kb)) <= multiset(kb)
    ensures RemoveEach(kb, Flagged(kb)) == Kept(kb)
  {
    if kb != [] {
      var a := kb[..|kb| - 1];
      var x := kb[|kb| - 1];
      assert kb == a + [x];
      RemoveFlaggedKeepsRest(a);
      RemoveEachAppend(a, x, Flagged(a));
      FlaggedLast(a, x);
      if Resolved(x) {
        RemoveFlaggedResolvedLast(a, x);
      } else {
        assert Flagged(kb) == Flagged(a);
        assert Kept(kb) == Kept(a) + [x];
      }
    }
  }

  lemma RemoveFlaggedResolvedLast(a: seq<Sentence>, x: Sentence)
    requires Resolved(x)
    requires multiset(Flagged(a)) <= multiset(a) && RemoveEach(a, Flagged(a)) == Kept(a)
    requires RemoveEach(a + [x], Flagged(a)) == RemoveEach(a, Flagged(a)) + [x]
    ensures multiset(Flagged(a) + [x]) <= multiset(a + [x])
    ensures RemoveEach(a + [x], Flagged(a) + [x]) == Kept(a)
  {
    var fl := Flagged(a) + [x];
    assert fl[..|fl| - 1] == Flagged(a);
    KeptUnresolved(a);
    RemoveFirstLast(Kept(a), x);
  }

  // ---------------------------------------------------------------------------------------
  // The clean-up loop that removes empty sentences while iterating over the list

  /**
   * The loop `for sentence in knowledge: if not sentence.cells: knowledge.remove(sentence)`
   * from position `i` on. Python's list iterator walks by index, so after each removal the
   * next element moves into the visited slot and is skipped.
   */
  function PruneFrom(kb: seq<Sentence>, i: nat): seq<Sentence>
    decreases |kb| - i
  {
    if i >= |kb| then kb
    else if kb[i].cells == {} then PruneFrom(RemoveFirst(kb, kb[i]), i + 1)
    else PruneFrom(kb, i + 1)
  }

  /** The non-empty sentences of `kb`, in order. */
  function NonEmpty(kb: seq<Sentence>): seq<Sentence>
  {
    if kb == [] then []
    else NonEmpty(kb[..|kb| - 1]) + (if kb[|kb| - 1].cells != {} then [kb[|kb| - 1]] else [])
  }

  lemma {:induction false} NonEmptyConcat(a: seq<Sentence>, b: seq<Sentence>)
    ensures NonEmpty(a + b) == NonEmpty(a) + NonEmpty(b)
  {
    if b != [] {
      var init := b[..|b| - 1];
      assert (a + b)[..|a + b| - 1] == a + init;
      NonEmptyConcat(a, init);
    } else {
      assert a + b == a;
    }
  }

  lemma NonEmptyDropsEmptyLast(a: seq<Sentence>, x: Sentence)
    requires x.cells == {}
    ensures NonEmpty(a + [x]) == NonEmpty(a)
  {
    assert (a + [x])[..|a|] == a;
  }

  lemma RemoveEmptyKeepsNonEmpty(kb: seq<Sentence>, x: Sentence)
    requires x in kb && x.cells == {}
    ensures NonEmpty(RemoveFirst(kb, x)) == NonEmpty(kb)
  {
    var k := FirstIndex(kb, x);
    var a, b := kb[..k], kb[k + 1..];
    assert RemoveFirst(kb, x) == a + b;
    assert kb == (a + [x]) + b;
    calc {
      NonEmpty(kb);
      { NonEmptyConcat(a + [x], b); }
      NonEmpty(a + [x]) + NonEmpty(b);
      { NonEmptyDropsEmptyLast(a, x); }
      NonEmpty(a) + NonEmpty(b);
      { NonEmptyConcat(a, b); }
      NonEmpty(a + b);
    }
  }

  /** The clean-up keeps every non-empty sentence, in order, and adds nothing. */
  lemma {:induction false} PruneKeepsNonEmpty(kb: seq<Sentence>, i: nat)
    ensures NonEmpty(PruneFrom(kb, i)) == NonEmpty(kb)
    ensures multiset(PruneFrom(kb, i)) <= multiset(kb)
    decreases |kb| - i
  {
    if i < |kb| {
      if kb[i].cells == {} {
        RemoveEmptyKeepsNonEmpty(kb, kb[i]);
        PruneKeepsNonEmpty(RemoveFirst(kb, kb[i]), i + 1);
      } else {
        PruneKeepsNonEmpty(kb, i + 1);
      }
    }
  }

  /** Two empty sentences in a row: the second slides into the visited slot and survives. */
  lemma PruneSkipsAfterRemoval()
    ensures PruneFrom([Sentence({}, 0), Sentence({}, 0)], 0) == [Sentence({}, 0)]
  {
    var e := Sentence({}, 0);
    assert FirstIndex([e, e], e) == 0;
    assert RemoveFirst([e, e], e) == [e];
  }
}
