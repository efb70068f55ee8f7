/** The Minesweeper board and the knowledge-based player
    (minesweeper/minesweeper.py). Cells are (row, column) pairs. */
module Minesweeper {
  import opened Wrappers

  type Cell = (int, int)

  predicate InBounds(height: int, width: int, c: Cell) {
    0 <= c.0 < height && 0 <= c.1 < width
  }

  /** The in-bounds cells of the 3×3 block centred on `c`, without `c`
      itself: the cells both `nearby_mines` and `add_knowledge` visit. */
  function Neighbourhood(height: int, width: int, c: Cell): set<Cell> {
    set i, j | c.0 - 1 <= i <= c.0 + 1 && c.1 - 1 <= j <= c.1 + 1 && (i, j) != c && 0 <= i < height && 0 <= j < width
      :: (i, j)
  }

  /** `x` comes before (i, j) in the row-major order of the source's nested
      loops. */
  predicate Before(x: Cell, i: int, j: int) {
    x.0 < i || (x.0 == i && x.1 < j)
  }

  lemma SubsetCard<T>(a: set<T>, b: set<T>)
    requires a <= b
    ensures |a| <= |b|
  {
    assert b * a == a;
    assert b == (b - a) + a;
  }

  /** A cell has at most eight neighbours. */
  lemma {:induction false} NeighbourhoodSize(height: int, width: int, c: Cell)
    ensures |Neighbourhood(height, width, c)| <= 8
  {
    var (r, k) := c;
    var ring := {(r - 1, k - 1), (r - 1, k), (r - 1, k + 1), (r, k - 1), (r, k + 1), (r + 1, k - 1), (r + 1, k), (r + 1, k + 1)};
    assert |ring| <= 8;
    assert Neighbourhood(height, width, c) <= ring;
    SubsetCard(Neighbourhood(height, width, c), ring);
  }

  /** The cells of `s` the row-major scan has passed when it is at (i, j). */
  ghost function Upto(s: set<Cell>, i: int, j: int): set<Cell> {
    set x | x in s && Before(x, i, j)
  }

  lemma UptoStep(s: set<Cell>, i: int, j: int)
    ensures Upto(s, i, j + 1) == Upto(s, i, j) + (if (i, j) in s then {(i, j)} else {})
    ensures (i, j) !in Upto(s, i, j)
  {
  }

  /** Within the block around `c`, finishing row i is starting row i + 1. */
  lemma UptoRow(s: set<Cell>, c: Cell, i: int)
    requires forall x :: x in s ==> c.1 - 1 <= x.1 <= c.1 + 1
    ensures Upto(s, i, c.1 + 2) == Upto(s, i + 1, c.1 - 1)
  {
  }

  lemma UptoStart(s: set<Cell>, c: Cell)
    requires forall x :: x in s ==> c.0 - 1 <= x.0 && c.1 - 1 <= x.1
    ensures Upto(s, c.0 - 1, c.1 - 1) == {}
  {
  }

  lemma UptoEnd(s: set<Cell>, c: Cell)
    requires forall x :: x in s ==> x.0 <= c.0 + 1
    ensures Upto(s, c.0 + 2, c.1 - 1) == s
  {
  }

  /** One step of a scan that counts the cells of `s`. */
  lemma CountCell(s: set<Cell>, i: int, j: int, n: int)
    requires n == |Upto(s, i, j)|
    ensures (i, j) in s ==> n + 1 == |Upto(s, i, j + 1)|
    ensures (i, j) !in s ==> n == |Upto(s, i, j + 1)|
  {
    UptoStep(s, i, j);
  }

  /** One step of the scan that builds a new sentence: an open cell that is
      a known mine lowers the count, any other open cell joins the cells. */
  lemma ScanCell(open: set<Cell>, mines: set<Cell>, i: int, j: int, cells: set<Cell>, c: int, count: int)
    requires cells == Upto(open - mines, i, j) && c == count - |Upto(open * mines, i, j)|
    ensures (i, j) in open && (i, j) in mines ==>
              cells == Upto(open - mines, i, j + 1) && c - 1 == count - |Upto(open * mines, i, j + 1)|
    ensures (i, j) in open && (i, j) !in mines ==>
              cells + {(i, j)} == Upto(open - mines, i, j + 1) && c == count - |Upto(open * mines, i, j + 1)|
    ensures (i, j) !in open ==>
              cells == Upto(open - mines, i, j + 1) && c == count - |Upto(open * mines, i, j + 1)|
  {
    UptoStep(open - mines, i, j);
    UptoStep(open * mines, i, j);
  }

  // ------------------------------------------------------------------ board

  /** The game: a fixed board and the set of cells the player has flagged.
      The mines are given (the source places them at random). */
  class Minesweeper {
    const height: nat
    const width: nat
    const mines: set<Cell>
    const board: seq<seq<bool>>
    var minesFound: set<Cell>

    ghost predicate Valid() {
      && |board| == height
      && (forall i :: 0 <= i < height ==> |board[i]| == width)
      && (forall i, j :: 0 <= i < height && 0 <= j < width ==> (board[i][j] <==> (i, j) in mines))
      && (forall c :: c in mines ==> InBounds(height, width, c))
    }

    /** `__init__`: an empty field, then the mines laid on it; no mine
        found yet. */
    constructor (height: nat, width: nat, mines: set<Cell>)
      requires forall c :: c in mines ==> InBounds(height, width, c)
      ensures Valid() && this.height == height && this.width == width && this.mines == mines
      ensures minesFound == {}
    {
      var rows: seq<seq<bool>> := [];
      for i := 0 to height
        invariant |rows| == i
        invariant forall r :: 0 <= r < i ==> |rows[r]| == width
        invariant forall r, s :: 0 <= r < i && 0 <= s < width ==> (rows[r][s] <==> (r, s) in mines)
      {
        var row: seq<bool> := [];
        for j := 0 to width
          invariant |row| == j
          invariant forall s :: 0 <= s < j ==> (row[s] <==> (i, s) in mines)
        {
          row := row + [(i, j) in mines];
        }
        rows := rows + [row];
      }
      this.height := height;
      this.width := width;
      this.mines := mines;
      board := rows;
      minesFound := {};
    }

    /** Python's index into a list of length `n`: a negative index counts
        from the end. */
    static function PyIndex(k: int, n: nat): (r: nat)
      requires -(n as int) <= k < n
      ensures r < n
      ensures k >= 0 ==> r == k
    {
      if k < 0 then n + k else k
    }

    /** `is_mine(cell)`: the board entry at `cell`, with Python's negative
        indices; `None` is the IndexError an index beyond the board raises. */
    function IsMine(cell: Cell): (r: Option<bool>)
      requires Valid()
      ensures r.None? <==> !(-(height as int) <= cell.0 < height && -(width as int) <= cell.1 < width)
      ensures r.Some? ==> (r.value <==> (PyIndex(cell.0, height), PyIndex(cell.1, width)) in mines)
      ensures InBounds(height, width, cell) ==> r == Some(cell in mines)
    {
      if -(height as int) <= cell.0 < height && -(width as int) <= cell.1 < width then
        Some(board[PyIndex(cell.0, height)][PyIndex(cell.1, width)])
      else None
    }

    /** `nearby_mines(cell)`: the number of mines among the in-bounds cells
        around `cell`. */
    method NearbyMines(cell: Cell) returns (count: nat)
      requires Valid()
      ensures count == |Neighbourhood(height, width, cell) * mines|
      ensures count <= 8
    {
      count := 0;
      ghost var around := Neighbourhood(height, width, cell);
      ghost var found := around * mines;
      UptoStart(found, cell);
      for i := cell.0 - 1 to cell.0 + 2
        invariant count == |Upto(found, i, cell.1 - 1)|
      {
        for j := cell.1 - 1 to cell.1 + 2
          invariant count == |Upto(found, i, j)|
        {
          CountCell(found, i, j, count);
          if (i, j) != cell && 0 <= i < height && 0 <= j < width {
            if board[i][j] {
              assert (i, j) in found;
              count := count + 1;
            }
          }
        }
        UptoRow(found, cell, i);
      }
      UptoEnd(found, cell);
      NeighbourhoodSize(height, width, cell);
      SubsetCard(around * mines, around);
    }

    /** `won`: the flagged cells are exactly the mines, that is, exactly
        the cells of the board that hold a mine. */
    function Won(): (r: bool)
      reads this
      ensures Valid() ==> (r <==> forall c :: c in minesFound <==> InBounds(height, width, c) && board[c.0][c.1])
    {
      minesFound == mines
    }
  }

  // -------------------------------------------------------------- sentences

  /** The value of a `Sentence`: `count` of the `cells` are mines. Two
      sentences are equal (`__eq__`) exactly when their values are. */
  datatype Fact = Fact(cells: set<Cell>, count: int)
  {
    /** The sentence is true of the mine set `m`. */
    predicate HoldsIn(m: set<Cell>) {
      |cells * m| == count
    }

    /** `known_mines`: every cell, when there are as many cells as mines and
        at least one; nothing otherwise. */
    function KnownMines(): (r: set<Cell>)
      ensures r <= cells
      ensures r != {} <==> |cells| == count && count != 0
      ensures r != {} ==> r == cells
    {
      if |cells| == count && count != 0 then cells else {}
    }

    /** `known_safes`, as written: every cell, when there are as many cells
        as mines and that number is zero. */
    function KnownSafes(): (r: set<Cell>)
      ensures r <= cells
    {
      if |cells| == count && count == 0 then cells else {}
    }

    /** The sentence after `mark_mine(c)`. */
    function MarkedMine(c: Cell): (r: Fact)
      ensures r.cells == cells - {c}
      ensures r.count == if c in cells then count - 1 else count
    {
      if c in cells then Fact(cells - {c}, count - 1) else this
    }

    /** The sentence after `mark_mine` of each cell of `ms`, in any order:
        the cells of `ms` out, and the count lowered once for each of them
        the sentence had. */
    function MinesMarked(ms: set<Cell>): Fact {
      Fact(cells - ms, count - |cells * ms|)
    }

    /** The sentence after the first pass of inference has visited it:
        empty with count zero when it gave up its mines, unchanged
        otherwise. */
    function AfterPass(): (r: Fact)
      ensures r.cells <= cells
      ensures KnownMines() != {} ==> r.cells == {} && r.count == 0
      ensures KnownMines() == {} ==> r == this
    {
      if KnownMines() != {} then Fact({}, 0) else this
    }

    /** The sentence after `mark_safe(c)`. */
    function MarkedSafe(c: Cell): (r: Fact)
      ensures r.cells == cells - {c} && r.count == count
    {
      if c in cells then Fact(cells - {c}, count) else this
    }
  }

  /** The cells `known_mines` reports are mines of any mine set the
      sentence is true of. */
  lemma KnownMinesSound(f: Fact, m: set<Cell>)
    requires f.HoldsIn(m)
    ensures f.KnownMines() <= m
  {
    if f.KnownMines() != {} {
      assert |f.cells - m| == |f.cells| - |f.cells * m| == 0;
      assert f.cells - m == {};
      forall x | x in f.cells ensures x in m {
        assert x !in f.cells - m;
      }
    }
  }

  /** A sentence true of `m` stays true after the first pass visits it. */
  lemma AfterPassSound(f: Fact, m: set<Cell>)
    requires f.HoldsIn(m)
    ensures f.AfterPass().HoldsIn(m)
  {
    assert {} * m == {};
  }

  /** As written, `known_safes` never reports a cell: its guard holds only
      for a sentence with no cells. */
  lemma KnownSafesAlwaysEmpty(f: Fact)
    ensures f.KnownSafes() == {}
  {
  }

  /** Taking out a mine keeps a sentence true. */
  lemma {:induction false} MarkedMineKeepsTruth(f: Fact, m: set<Cell>, c: Cell)
    requires f.HoldsIn(m) && c in m
    ensures f.MarkedMine(c).HoldsIn(m)
  {
    if c in f.cells {
      assert (f.cells - {c}) * m == (f.cells * m) - {c};
    }
  }

  /** Taking out a safe cell keeps a sentence true. */
  lemma {:induction false} MarkedSafeKeepsTruth(f: Fact, m: set<Cell>, c: Cell)
    requires f.HoldsIn(m) && c !in m
    ensures f.MarkedSafe(c).HoldsIn(m)
  {
    if c in f.cells {
      assert (f.cells - {c}) * m == f.cells * m;
    }
  }

  /** The subset rule of `add_knowledge`: when the cells of `f1` are among
      those of `f2`, the remaining cells of `f2` hold the remaining mines. */
  lemma {:induction false} SubsetInferenceSound(f1: Fact, f2: Fact, m: set<Cell>)
    requires f1.HoldsIn(m) && f2.HoldsIn(m) && f1.cells <= f2.cells
    ensures Fact(f2.cells - f1.cells, f2.count - f1.count).HoldsIn(m)
  {
    var a, b := f1.cells * m, f2.cells * m;
    assert (f2.cells - f1.cells) * m == b - a;
    assert b * a == a;
  }

  /** The sentences `add_knowledge` combines: different values, both with
      cells, the cells of `a` among those of `b`. */
  predicate Subsumes(a: Fact, b: Fact) {
    a != b && a.cells != {} && b.cells != {} && a.cells <= b.cells
  }

  /** The sentence the subset rule makes of `a` and `b`. */
  function Difference(a: Fact, b: Fact): Fact {
    Fact(b.cells - a.cells, b.count - a.count)
  }

  /** `f` follows from two of the values `vs` by the subset rule. */
  ghost predicate Derivable(vs: seq<Fact>, f: Fact) {
    exists n, m :: 0 <= n < |vs| && 0 <= m < |vs| && Subsumes(vs[n], vs[m]) && f == Difference(vs[n], vs[m])
  }

  /** `inf` extends `i0` by inferences each of which follows from two of
      `vals` by the subset rule and is neither one of `vals` nor an
      inference before it. */
  ghost predicate DerivedSince(vals: seq<Fact>, i0: seq<Fact>, inf: seq<Fact>) {
    && i0 <= inf
    && forall i :: |i0| <= i < |inf| ==> Derivable(vals, inf[i]) && inf[i] !in vals && inf[i] !in inf[..i]
  }

  /** A new derived inference keeps `DerivedSince`. */
  lemma DerivedSinceAppend(vals: seq<Fact>, i0: seq<Fact>, inf: seq<Fact>, f: Fact)
    requires DerivedSince(vals, i0, inf) && Derivable(vals, f) && f !in vals && f !in inf
    ensures DerivedSince(vals, i0, inf + [f])
  {
    var inf' := inf + [f];
    assert inf'[..|inf|] == inf;
    forall i | |i0| <= i < |inf| ensures inf'[..i] == inf[..i] {
    }
  }

  /** The second pass of inference so far, on the sentences `ks` of
      knowledge, their values `kvs` and the inferences `inf`, where the pass
      visits `snap`, whose values were `vals`, and `i0` were the inferences
      before it: the inferences added since are derived (`DerivedSince`);
      every sentence is one of `snap` or has an added inference as value;
      and every value of `vals` is still held by a sentence. */
  ghost predicate PassState(snap: seq<Sentence>, vals: seq<Fact>, i0: seq<Fact>,
                            ks: seq<Sentence>, kvs: seq<Fact>, inf: seq<Fact>)
  {
    && |snap| == |vals| && |ks| == |kvs|
    && DerivedSince(vals, i0, inf)
    && (forall i :: 0 <= i < |ks| ==> ks[i] in snap || kvs[i] in inf[|i0|..])
    && (forall n :: 0 <= n < |vals| ==> vals[n] in kvs)
  }

  /** Appending a sentence with a derived value `f` that no sentence holds
      and that is no inference yet, to knowledge and to the inferences,
      keeps `PassState`. */
  lemma PassAppend(snap: seq<Sentence>, vals: seq<Fact>, i0: seq<Fact>,
                   ks: seq<Sentence>, kvs: seq<Fact>, inf: seq<Fact>, x: Sentence, f: Fact)
    requires PassState(snap, vals, i0, ks, kvs, inf)
    requires Derivable(vals, f) && f !in kvs && f !in inf
    ensures PassState(snap, vals, i0, ks + [x], kvs + [f], inf + [f])
  {
    forall n | 0 <= n < |vals| ensures vals[n] != f {
      assert vals[n] in kvs;
    }
    DerivedSinceAppend(vals, i0, inf, f);
    assert (inf + [f])[|i0|..] == inf[|i0|..] + [f];
  }

  /** Removing the sentence at `p` of knowledge, whose value the sentence
      at `q` also holds, keeps `PassState`: `ks'` and `kvs'` are `ks` and
      `kvs` without position `p`. */
  lemma PassDrop(snap: seq<Sentence>, vals: seq<Fact>, i0: seq<Fact>, ks: seq<Sentence>, kvs: seq<Fact>,
                 inf: seq<Fact>, p: nat, q: nat, ks': seq<Sentence>, kvs': seq<Fact>)
    requires PassState(snap, vals, i0, ks, kvs, inf)
    requires p < |ks| && q < |ks| && p != q && kvs[p] == kvs[q]
    requires |ks'| == |kvs'| == |ks| - 1
    requires forall i :: 0 <= i < |ks'| ==> ks'[i] == ks[if i < p then i else i + 1]
    requires forall i :: 0 <= i < |ks'| ==> kvs'[i] == kvs[if i < p then i else i + 1]
    ensures PassState(snap, vals, i0, ks', kvs', inf)
  {
    forall n | 0 <= n < |vals| ensures vals[n] in kvs' {
      var j :| 0 <= j < |kvs| && kvs[j] == vals[n];
      var j' := if j == p then q else j;
      if j' < p {
        assert kvs'[j'] == kvs[j'];
      } else {
        assert kvs'[j' - 1] == kvs[j'];
      }
    }
  }

  /** Every pair of `snap` visited before the pair `(n, m)`, both among the
      sentences `ks`, whose values the subset rule applies to, has as
      difference one of `vals` or one of the inferences `inf`. */
  ghost predicate Covered(snap: seq<Sentence>, vals: seq<Fact>, n: int, m: int, ks: seq<Sentence>, inf: seq<Fact>) {
    forall a, b :: 0 <= a < |snap| && 0 <= b < |snap| && a < |vals| && b < |vals| && (a < n || (a == n && b < m)) &&
                   snap[a] in ks && snap[b] in ks && Subsumes(vals[a], vals[b]) ==>
                     Difference(vals[a], vals[b]) in vals || Difference(vals[a], vals[b]) in inf
  }

  /** What is covered stays covered while sentences of `snap` only leave
      and inferences only come. */
  lemma CoveredMono(snap: seq<Sentence>, vals: seq<Fact>, n: int, m: int,
                    ks: seq<Sentence>, inf: seq<Fact>, ks': seq<Sentence>, inf': seq<Fact>)
    requires Covered(snap, vals, n, m, ks, inf)
    requires forall a :: 0 <= a < |snap| && snap[a] in ks' ==> snap[a] in ks
    requires inf <= inf'
    ensures Covered(snap, vals, n, m, ks', inf')
  {
    forall a, b | 0 <= a < |snap| && 0 <= b < |snap| && a < |vals| && b < |vals| && (a < n || (a == n && b < m)) &&
                  snap[a] in ks' && snap[b] in ks' && Subsumes(vals[a], vals[b])
      ensures Difference(vals[a], vals[b]) in vals || Difference(vals[a], vals[b]) in inf'
    {
      assert snap[a] in ks && snap[b] in ks;
    }
  }

  /** Visiting the pair `(n, m)` extends what is covered by that pair. */
  lemma CoveredNext(snap: seq<Sentence>, vals: seq<Fact>, n: int, m: int, ks: seq<Sentence>, inf: seq<Fact>)
    requires Covered(snap, vals, n, m, ks, inf) && 0 <= n < |snap| && 0 <= m < |snap|
    requires n < |vals| && m < |vals| && snap[n] in ks && snap[m] in ks && Subsumes(vals[n], vals[m]) ==>
               Difference(vals[n], vals[m]) in vals || Difference(vals[n], vals[m]) in inf
    ensures Covered(snap, vals, n, m + 1, ks, inf)
  {
  }

  /** The values of `ks` with a sentence appended. */
  lemma ValuesAppend(ks: seq<Sentence>, x: Sentence)
    ensures Values(ks + [x]) == Values(ks) + [x.Value()]
  {
    assert (ks + [x])[..|ks|] == ks;
  }

  /** What the subset rule derives from true sentences is true. */
  lemma DerivableSound(vs: seq<Fact>, f: Fact, truth: set<Cell>)
    requires forall n :: 0 <= n < |vs| ==> vs[n].HoldsIn(truth)
    requires Derivable(vs, f)
    ensures f.HoldsIn(truth)
  {
    var n, m :| 0 <= n < |vs| && 0 <= m < |vs| && Subsumes(vs[n], vs[m]) && f == Difference(vs[n], vs[m]);
    SubsetInferenceSound(vs[n], vs[m], truth);
  }

  /** The sentence `add_knowledge` builds is true: the neighbours it drops
      are clicked or known safe, hence no mines, or known mines, each taken
      off the count. */
  lemma {:induction false} NewSentenceSound(around: set<Cell>, movesMade: set<Cell>, safes: set<Cell>,
                                            mines: set<Cell>, truth: set<Cell>, count: int)
    requires movesMade <= safes && safes * truth == {} && mines <= truth
    requires count == |around * truth|
    ensures Fact(around - movesMade - safes - mines, count - |(around - movesMade - safes) * mines|).HoldsIn(truth)
  {
    var open := around - movesMade - safes;
    forall x | x in around * truth ensures x in open {
      assert x !in safes * truth;
    }
    assert around * truth == open * truth;
    var known, unknown := open * mines, (open - mines) * truth;
    assert open * truth == known + unknown;
    assert known * unknown == {};
  }

  /** A count of zero makes every neighbour safe. */
  lemma NoMineAround(around: set<Cell>, truth: set<Cell>, count: int)
    requires count == |around * truth| && count == 0
    ensures around * truth == {}
  {
  }

  /** A count equal to the number of neighbours makes every neighbour a
      mine. */
  lemma AllMinesAround(around: set<Cell>, truth: set<Cell>)
    requires |around * truth| == |around|
    ensures around <= truth
  {
    if around != {} {
      KnownMinesSound(Fact(around, |around|), truth);
    }
  }

  /** A sentence object: its cells and count change in place. */
  class Sentence {
    var cells: set<Cell>
    var count: int

    constructor (cells: set<Cell>, count: int)
      ensures this.cells == cells && this.count == count
    {
      this.cells := cells;
      this.count := count;
    }

    function Value(): Fact
      reads this
    {
      Fact(cells, count)
    }

    /** `mark_mine(cell)`: drop the cell and one from the count if the
        sentence mentions it. */
    method MarkMine(cell: Cell)
      modifies this
      ensures Value() == old(Value()).MarkedMine(cell)
    {
      if cell in cells {
        cells := cells - {cell};
        count := count - 1;
      }
    }

    /** `mark_safe(cell)`: drop the cell if the sentence mentions it. */
    method MarkSafe(cell: Cell)
      modifies this
      ensures Value() == old(Value()).MarkedSafe(cell)
    {
      if cell in cells {
        cells := cells - {cell};
      }
    }
  }

  /** The values of a list of sentences, position by position. */
  ghost function Values(ks: seq<Sentence>): (r: seq<Fact>)
    reads ks
    ensures |r| == |ks|
  {
    if ks == [] then [] else Values(ks[..|ks| - 1]) + [ks[|ks| - 1].Value()]
  }

  /** Removing position `p` of `s` shifts every later element down by one. */
  lemma DropAt<T>(s: seq<T>, p: nat, s': seq<T>)
    requires p < |s| && s' == s[..p] + s[p + 1..]
    ensures |s'| == |s| - 1
    ensures forall i :: 0 <= i < |s'| ==> s'[i] == s[if i < p then i else i + 1]
  {
  }

  /** A value held at two positions `i` and `j` has a first position, and
      one of `i` and `j` is another position holding it. */
  lemma TwiceIndexed(vs: seq<Fact>, i: nat, j: nat)
    requires i < |vs| && j < |vs| && i != j && vs[i] == vs[j]
    ensures var p := IndexOf(vs, vs[i]); var q := if i == p then j else i;
              p < |vs| && q < |vs| && p != q && vs[q] == vs[p]
  {
  }

  /** Position `n` of `Values(ks)` is the value of `ks[n]`, for one `n`. */
  lemma ValueAt(ks: seq<Sentence>, n: nat)
    requires n < |ks|
    ensures Values(ks)[n] == ks[n].Value()
  {
    ValuesAt(ks);
  }

  /** Removing the sentence at position `p` removes its value from the same position. */
  lemma ValuesDropAt(ks: seq<Sentence>, p: nat, ks': seq<Sentence>)
    requires p < |ks| && ks' == ks[..p] + ks[p + 1..]
    ensures forall i :: 0 <= i < |ks'| ==> Values(ks')[i] == Values(ks)[if i < p then i else i + 1]
  {
    DropAt(ks, p, ks');
    ValuesAt(ks);
    ValuesAt(ks');
  }

  /** Position `n` of `Values(ks)` is the value of `ks[n]`. */
  lemma {:induction false} ValuesAt(ks: seq<Sentence>)
    ensures forall n :: 0 <= n < |ks| ==> Values(ks)[n] == ks[n].Value()
  {
    if ks != [] {
      var front := ks[..|ks| - 1];
      ValuesAt(front);
      assert forall n :: 0 <= n < |front| ==> front[n] == ks[n];
    }
  }

  /** The position of the first value `f` in `vs` (`|vs|` when there is
      none): the element Python's `list.remove(f)` takes out. */
  function IndexOf(vs: seq<Fact>, f: Fact): (r: nat)
    ensures r <= |vs|
    ensures r < |vs| <==> f in vs
    ensures r < |vs| ==> vs[r] == f
    ensures forall k :: 0 <= k < r ==> vs[k] != f
  {
    if vs == [] then 0 else if vs[0] == f then 0 else 1 + IndexOf(vs[1..], f)
  }

  /** The mines the first pass of inference reads off the first `k` of
      sentences with the values `vs`: the union of their `known_mines`. */
  function MinesOf(vs: seq<Fact>, k: int): set<Cell>
    requires 0 <= k <= |vs|
  {
    if k == 0 then {} else MinesOf(vs, k - 1) + vs[k - 1].KnownMines()
  }

  /** The values the first pass of inference saves in `inferences` from the
      first `k` of `vs`: those of the sentences that give up mines, in
      order. */
  function Resolved(vs: seq<Fact>, k: int): seq<Fact>
    requires 0 <= k <= |vs|
  {
    if k == 0 then [] else Resolved(vs, k - 1) + if vs[k - 1].KnownMines() != {} then [vs[k - 1]] else []
  }

  /** The sentences among the first `k` of `ks` the first pass keeps: those
      whose value in `vs` has cells, in order. */
  function Kept(ks: seq<Sentence>, vs: seq<Fact>, k: int): seq<Sentence>
    requires 0 <= k <= |ks| == |vs|
  {
    if k == 0 then [] else Kept(ks, vs, k - 1) + if vs[k - 1].cells != {} then [ks[k - 1]] else []
  }

  /** The mines of the first pass include every cell a sentence reports
      with `known_mines`... */
  lemma {:induction false} MinesOfContains(vs: seq<Fact>, k: int, n: int)
    requires 0 <= n < k <= |vs|
    ensures vs[n].KnownMines() <= MinesOf(vs, k)
    decreases k
  {
    if n < k - 1 {
      MinesOfContains(vs, k - 1, n);
    }
  }

  /** ... and nothing else: each of them comes from some sentence. */
  lemma {:induction false} MinesOfWitness(vs: seq<Fact>, k: int, c: Cell) returns (n: int)
    requires 0 <= k <= |vs| && c in MinesOf(vs, k)
    ensures 0 <= n < k && c in vs[n].KnownMines()
  {
    if c in vs[k - 1].KnownMines() {
      n := k - 1;
    } else {
      n := MinesOfWitness(vs, k - 1, c);
    }
  }

  /** Sentences true of `m` give up only mines of `m`. */
  lemma {:induction false} MinesOfSound(vs: seq<Fact>, k: int, m: set<Cell>)
    requires 0 <= k <= |vs|
    requires forall n :: 0 <= n < k ==> vs[n].HoldsIn(m)
    ensures MinesOf(vs, k) <= m
  {
    if k != 0 {
      MinesOfSound(vs, k - 1, m);
      KnownMinesSound(vs[k - 1], m);
    }
  }

  /** The values the first pass saves include that of every sentence that
      gives up mines... */
  lemma {:induction false} ResolvedContains(vs: seq<Fact>, k: int, n: int)
    requires 0 <= n < k <= |vs| && vs[n].KnownMines() != {}
    ensures vs[n] in Resolved(vs, k)
    decreases k
  {
    if n < k - 1 {
      ResolvedContains(vs, k - 1, n);
    }
  }

  /** The first pass saves nothing exactly when no sentence has known mines. */
  lemma ResolvedNone(vs: seq<Fact>, k: int)
    requires 0 <= k <= |vs|
    ensures Resolved(vs, k) == [] <==> forall n :: 0 <= n < k ==> vs[n].KnownMines() == {}
  {
    if Resolved(vs, k) != [] {
      var n := ResolvedWitness(vs, k, 0);
    }
    forall n | 0 <= n < k && vs[n].KnownMines() != {} ensures Resolved(vs, k) != [] {
      ResolvedContains(vs, k, n);
    }
  }

  /** ... and no other, and no more of them than there are sentences. */
  lemma {:induction false} ResolvedWitness(vs: seq<Fact>, k: int, i: int) returns (n: int)
    requires 0 <= k <= |vs| && 0 <= i < |Resolved(vs, k)|
    ensures 0 <= n < k && vs[n] == Resolved(vs, k)[i] && vs[n].KnownMines() != {}
    ensures |Resolved(vs, k)| <= k
  {
    var front := Resolved(vs, k - 1);
    if i < |front| {
      n := ResolvedWitness(vs, k - 1, i);
    } else {
      n := k - 1;
      if 0 < |front| {
        var _ := ResolvedWitness(vs, k - 1, 0);
      }
    }
  }

  /** The first pass keeps every sentence whose value has cells... */
  lemma {:induction false} KeptContains(ks: seq<Sentence>, vs: seq<Fact>, k: int, n: int)
    requires 0 <= n < k <= |ks| == |vs| && vs[n].cells != {}
    ensures ks[n] in Kept(ks, vs, k)
    decreases k
  {
    if n < k - 1 {
      KeptContains(ks, vs, k - 1, n);
    }
  }

  /** ... and keeps no other. */
  lemma {:induction false} KeptWitness(ks: seq<Sentence>, vs: seq<Fact>, k: int, i: int) returns (n: int)
    requires 0 <= k <= |ks| == |vs| && 0 <= i < |Kept(ks, vs, k)|
    ensures 0 <= n < k && ks[n] == Kept(ks, vs, k)[i] && vs[n].cells != {}
  {
    var front := Kept(ks, vs, k - 1);
    if i < |front| {
      n := KeptWitness(ks, vs, k - 1, i);
    } else {
      n := k - 1;
    }
  }

  /** Of distinct sentences, the first pass keeps them distinct. */
  lemma {:induction false} KeptDistinct(ks: seq<Sentence>, vs: seq<Fact>, k: int)
    requires 0 <= k <= |ks| == |vs|
    requires forall n, m :: 0 <= n < m < |ks| ==> ks[n] != ks[m]
    ensures forall i, j :: 0 <= i < j < |Kept(ks, vs, k)| ==> Kept(ks, vs, k)[i] != Kept(ks, vs, k)[j]
  {
    if k != 0 {
      KeptDistinct(ks, vs, k - 1);
      var front := Kept(ks, vs, k - 1);
      forall i | 0 <= i < |front| ensures front[i] != ks[k - 1] {
        var n := KeptWitness(ks, vs, k - 1, i);
      }
    }
  }

  /** A mine scan that has taken out the cells `u` and now takes out `c`
      lowers a sentence's count once more exactly when `c` is one of its
      cells. */
  lemma MinesTakenStep(cells: set<Cell>, u: set<Cell>, c: Cell)
    requires c !in u
    ensures |cells * (u + {c})| == |cells * u| + if c in cells then 1 else 0
  {
    if c in cells {
      assert cells * (u + {c}) == cells * u + {c};
    } else {
      assert cells * (u + {c}) == cells * u;
    }
  }

  // ---------------------------------------------------------------- player

  /** The player: the cells it has clicked, the cells it knows to be mines
      or safe, its sentences, and the values of sentences it has already
      derived or used up (kept so as not to derive them again). */
  class MinesweeperAI {
    const height: nat
    const width: nat
    var movesMade: set<Cell>
    var mines: set<Cell>
    var safes: set<Cell>
    var knowledge: seq<Sentence>
    var inferences: seq<Fact>

    /** Each sentence object occurs once, and every clicked cell is known
        safe. */
    ghost predicate Valid()
      reads this
    {
      && (forall n, m :: 0 <= n < m < |knowledge| ==> knowledge[n] != knowledge[m])
      && movesMade <= safes
    }

    /** What the player knows is true of the actual mine set `truth`. */
    ghost predicate SoundIn(truth: set<Cell>)
      reads this, knowledge
    {
      && mines <= truth
      && safes * truth == {}
      && (forall s :: s in knowledge ==> s.Value().HoldsIn(truth))
    }

    constructor (height: nat, width: nat)
      ensures Valid() && this.height == height && this.width == width
      ensures movesMade == {} && mines == {} && safes == {} && knowledge == [] && inferences == []
    {
      this.height := height;
      this.width := width;
      movesMade := {};
      mines := {};
      safes := {};
      knowledge := [];
      inferences := [];
    }

    /** `mark_mine(cell)`: record the mine and take it out of every
        sentence. */
    method MarkMine(cell: Cell, ghost truth: set<Cell>)
      requires Valid()
      modifies this, knowledge
      ensures Valid()
      ensures mines == old(mines) + {cell}
      ensures safes == old(safes) && movesMade == old(movesMade)
      ensures knowledge == old(knowledge) && inferences == old(inferences)
      ensures forall n :: 0 <= n < |knowledge| ==> knowledge[n].Value() == old(knowledge[n].Value()).MarkedMine(cell)
      ensures forall n :: 0 <= n < |knowledge| ==> cell !in knowledge[n].cells
      ensures old(SoundIn(truth)) && cell in truth ==> SoundIn(truth)
    {
      ghost var wasSound := SoundIn(truth);
      mines := mines + {cell};
      for k := 0 to |knowledge|
        invariant Valid() && knowledge == old(knowledge)
        invariant mines == old(mines) + {cell} && safes == old(safes) && movesMade == old(movesMade)
        invariant inferences == old(inferences)
        invariant forall n :: 0 <= n < k ==> knowledge[n].Value() == old(knowledge[n].Value()).MarkedMine(cell)
        invariant forall n :: k <= n < |knowledge| ==> knowledge[n].Value() == old(knowledge[n].Value())
      {
        knowledge[k].MarkMine(cell);
      }
      if wasSound && cell in truth {
        forall s | s in knowledge ensures s.Value().HoldsIn(truth) {
          var n :| 0 <= n < |knowledge| && knowledge[n] == s;
          MarkedMineKeepsTruth(old(knowledge[n].Value()), truth, cell);
        }
      }
    }

    /** `mark_safe(cell)`: record the safe cell and take it out of every
        sentence. */
    method MarkSafe(cell: Cell, ghost truth: set<Cell>)
      requires Valid()
      modifies this, knowledge
      ensures Valid()
      ensures safes == old(safes) + {cell}
      ensures mines == old(mines) && movesMade == old(movesMade)
      ensures knowledge == old(knowledge) && inferences == old(inferences)
      ensures forall n :: 0 <= n < |knowledge| ==> knowledge[n].Value() == old(knowledge[n].Value()).MarkedSafe(cell)
      ensures forall n :: 0 <= n < |knowledge| ==> cell !in knowledge[n].cells
      ensures old(SoundIn(truth)) && cell !in truth ==> SoundIn(truth)
    {
      ghost var wasSound := SoundIn(truth);
      safes := safes + {cell};
      for k := 0 to |knowledge|
        invariant Valid() && knowledge == old(knowledge)
        invariant safes == old(safes) + {cell} && mines == old(mines) && movesMade == old(movesMade)
        invariant inferences == old(inferences)
        invariant forall n :: 0 <= n < k ==> knowledge[n].Value() == old(knowledge[n].Value()).MarkedSafe(cell)
        invariant forall n :: k <= n < |knowledge| ==> knowledge[n].Value() == old(knowledge[n].Value())
      {
        knowledge[k].MarkSafe(cell);
      }
      if wasSound && cell !in truth {
        forall s | s in knowledge ensures s.Value().HoldsIn(truth) {
          var n :| 0 <= n < |knowledge| && knowledge[n] == s;
          MarkedSafeKeepsTruth(old(knowledge[n].Value()), truth, cell);
        }
      }
    }

    /** The neighbour count at the start of `add_knowledge`: how many
        in-bounds cells surround `cell`. */
    method CountNeighbours(cell: Cell) returns (neighbours: nat)
      ensures neighbours == |Neighbourhood(height, width, cell)|
      ensures neighbours <= 8
    {
      neighbours := 0;
      ghost var around := Neighbourhood(height, width, cell);
      UptoStart(around, cell);
      for i := cell.0 - 1 to cell.0 + 2
        invariant neighbours == |Upto(around, i, cell.1 - 1)|
      {
        for j := cell.1 - 1 to cell.1 + 2
          invariant neighbours == |Upto(around, i, j)|
        {
          CountCell(around, i, j, neighbours);
          if (i, j) != cell && 0 <= i < height && 0 <= j < width {
            assert (i, j) in around;
            neighbours := neighbours + 1;
          }
        }
        UptoRow(around, cell, i);
      }
      UptoEnd(around, cell);
      NeighbourhoodSize(height, width, cell);
    }

    /** The sentence `add_knowledge` builds when the count decides nothing
        by itself: the neighbours not clicked, not known safe and not known
        mines, with the count lowered by one for each known mine among the
        neighbours neither clicked nor known safe. */
    method NewSentence(cell: Cell, count: int) returns (f: Fact)
      ensures f.cells == Neighbourhood(height, width, cell) - movesMade - safes - mines
      ensures f.count == count - |(Neighbourhood(height, width, cell) - movesMade - safes) * mines|
    {
      var cells: set<Cell> := {};
      var c := count;
      ghost var open := Neighbourhood(height, width, cell) - movesMade - safes;
      ghost var unknown, known := open - mines, open * mines;
      UptoStart(unknown, cell);
      UptoStart(known, cell);
      for i := cell.0 - 1 to cell.0 + 2
        invariant cells == Upto(unknown, i, cell.1 - 1)
        invariant c == count - |Upto(known, i, cell.1 - 1)|
      {
        for j := cell.1 - 1 to cell.1 + 2
          invariant cells == Upto(unknown, i, j)
          invariant c == count - |Upto(known, i, j)|
        {
          ScanCell(open, mines, i, j, cells, c, count);
          if (i, j) != cell && 0 <= i < height && 0 <= j < width {
            if (i, j) !in movesMade && (i, j) !in safes {
              assert (i, j) in open;
              if (i, j) in mines {
                c := c - 1;
              } else {
                cells := cells + {(i, j)};
              }
            }
          }
        }
        UptoRow(unknown, cell, i);
        UptoRow(known, cell, i);
      }
      UptoEnd(unknown, cell);
      UptoEnd(known, cell);
      f := Fact(cells, c);
    }

    /** `f in self.knowledge`: some sentence has that value. */
    predicate InKnowledge(f: Fact)
      reads this, knowledge
    {
      exists n :: 0 <= n < |knowledge| && knowledge[n].Value() == f
    }

    /** The second pass of inference so far, over the sentences `snap` it
        visits, whose values were `vals`, with `i0` the inferences before
        it: the visited sentences keep their values, and knowledge and the
        inferences are as `PassState` says. */
    ghost predicate Combined(snap: seq<Sentence>, vals: seq<Fact>, i0: seq<Fact>)
      reads this, knowledge, snap
    {
      && (forall n :: 0 <= n < |snap| && n < |vals| ==> snap[n].Value() == vals[n])
      && PassState(snap, vals, i0, knowledge, Values(knowledge), inferences)
    }

    /** The pairs of `snap` visited before `(n, m)` are covered in the
        current knowledge and inferences. */
    ghost predicate CombinedUpTo(snap: seq<Sentence>, vals: seq<Fact>, n: int, m: int)
      reads this
    {
      Covered(snap, vals, n, m, knowledge, inferences)
    }

    /** A value is held by a sentence exactly when it is one of the values
        of knowledge. */
    lemma InKnowledgeValues(f: Fact)
      ensures InKnowledge(f) <==> f in Values(knowledge)
    {
      ValuesAt(knowledge);
      if f in Values(knowledge) {
        var j :| 0 <= j < |knowledge| && Values(knowledge)[j] == f;
      }
    }

    /** The first pass of a further round would find nothing: every sentence
        has cells, and none has its cells all mines. */
    ghost predicate NothingToResolve()
      reads this, knowledge
    {
      forall n :: 0 <= n < |knowledge| ==> knowledge[n].cells != {} && knowledge[n].Value().KnownMines() == {}
    }

    /** The second pass of a further round would add nothing: what the
        subset rule makes of any two sentences is known or derived before. */
    ghost predicate NothingToCombine()
      reads this, knowledge
    {
      forall n, m :: 0 <= n < |knowledge| && 0 <= m < |knowledge| && Subsumes(knowledge[n].Value(), knowledge[m].Value()) ==>
        InKnowledge(Difference(knowledge[n].Value(), knowledge[m].Value())) ||
        Difference(knowledge[n].Value(), knowledge[m].Value()) in inferences
    }

    /** The inference loop has reached a fixpoint. */
    ghost predicate Quiet()
      reads this, knowledge
    {
      NothingToResolve() && NothingToCombine()
    }

    /** A second pass over the sentences `snap`, all with cells and none with
        known mines, that derived nothing leaves nothing to resolve or to
        combine: only sentences of `snap` are left, and every pair of them
        the subset rule applies to was covered. */
    lemma QuietAfterPass(snap: seq<Sentence>, vals: seq<Fact>, i0: seq<Fact>)
      requires Combined(snap, vals, i0) && CombinedUpTo(snap, vals, |snap|, 0) && |inferences| == |i0|
      requires forall k :: 0 <= k < |snap| ==> snap[k].cells != {} && snap[k].Value().KnownMines() == {}
      ensures Quiet()
    {
      var kvs := Values(knowledge);
      ValuesAt(knowledge);
      assert inferences[|i0|..] == [];
      forall n | 0 <= n < |knowledge| ensures knowledge[n] in snap {
        assert kvs[n] !in inferences[|i0|..];
      }
      forall n, m | 0 <= n < |knowledge| && 0 <= m < |knowledge| && Subsumes(knowledge[n].Value(), knowledge[m].Value())
        ensures InKnowledge(Difference(knowledge[n].Value(), knowledge[m].Value())) ||
                Difference(knowledge[n].Value(), knowledge[m].Value()) in inferences
      {
        var a :| 0 <= a < |snap| && snap[a] == knowledge[n];
        var b :| 0 <= b < |snap| && snap[b] == knowledge[m];
        var d := Difference(vals[a], vals[b]);
        if d in vals {
          var k :| 0 <= k < |vals| && vals[k] == d;
          InKnowledgeValues(d);
        }
      }
    }

    /** `make_safe_move`: a known safe cell not clicked yet, if there is
        one. */
    method MakeSafeMove() returns (move: Option<Cell>)
      ensures move.Some? ==> move.value in safes && move.value !in movesMade
      ensures move.None? <==> safes <= movesMade
    {
      if |safes| == 0 {
        return None;
      }
      var unvisited := safes;
      while unvisited != {}
        invariant unvisited <= safes
        invariant forall c :: c in safes && c !in unvisited ==> c in movesMade
        decreases unvisited
      {
        var cell :| cell in unvisited;
        if cell !in movesMade {
          return Some(cell);
        }
        unvisited := unvisited - {cell};
      }
      return None;
    }

    /** The candidates of `make_random_move`: the board cells neither
        clicked nor known to be mines, in row-major order. */
    method PossibleMoves() returns (moves: seq<Cell>)
      ensures forall c :: c in moves <==> InBounds(height, width, c) && c !in movesMade && c !in mines
      ensures forall n, m :: 0 <= n < m < |moves| ==> Before(moves[n], moves[m].0, moves[m].1)
    {
      moves := [];
      for i := 0 to height
        invariant forall c :: c in moves <==> InBounds(height, width, c) && c !in movesMade && c !in mines && c.0 < i
        invariant forall n, m :: 0 <= n < m < |moves| ==> Before(moves[n], moves[m].0, moves[m].1)
        invariant forall n :: 0 <= n < |moves| ==> moves[n].0 < i
      {
        for j := 0 to width
          invariant forall c :: c in moves <==>
                      InBounds(height, width, c) && c !in movesMade && c !in mines && Before(c, i, j)
          invariant forall n, m :: 0 <= n < m < |moves| ==> Before(moves[n], moves[m].0, moves[m].1)
          invariant forall n :: 0 <= n < |moves| ==> Before(moves[n], i, j)
        {
          if (i, j) !in movesMade && (i, j) !in mines {
            moves := moves + [(i, j)];
          }
        }
      }
    }

    /** `make_random_move`: one of the candidates, or `None` when there are
        none. The random choice is left open. */
    method MakeRandomMove() returns (move: Option<Cell>)
      ensures move.None? <==> forall c :: InBounds(height, width, c) ==> c in movesMade || c in mines
      ensures move.Some? ==> InBounds(height, width, move.value) && move.value !in movesMade && move.value !in mines
    {
      var possibleMoves := PossibleMoves();
      if |possibleMoves| == 0 {
        return None;
      }
      var i :| 0 <= i < |possibleMoves|;
      assert possibleMoves[i] in possibleMoves;
      return Some(possibleMoves[i]);
    }

    /** Take out of `knowledge` the first sentence whose value is `f`
        (Python's `list.remove`, which compares by value). */
    method RemoveFirstEqual(f: Fact)
      requires Valid()
      modifies this
      ensures Valid()
      ensures mines == old(mines) && safes == old(safes) && movesMade == old(movesMade) && inferences == old(inferences)
      ensures forall x :: x in knowledge ==> x in old(knowledge)
      ensures forall i :: 0 <= i < |knowledge| ==> knowledge[i] in old(knowledge)
      ensures old(InKnowledge(f)) ==> |knowledge| == |old(knowledge)| - 1 && !(forall x :: x in old(knowledge) ==> x in knowledge)
      ensures !old(InKnowledge(f)) ==> knowledge == old(knowledge)
      ensures var vs := old(Values(knowledge)); var n := IndexOf(vs, f);
                knowledge == if n < |vs| then old(knowledge)[..n] + old(knowledge)[n + 1..] else old(knowledge)
    {
      var n := PositionOf(f);
      if n < |knowledge| {
        var gone := knowledge[n];
        knowledge := knowledge[..n] + knowledge[n + 1..];
        assert gone !in knowledge;
      }
    }

    /** The position `list.remove(f)` looks for: that of the first sentence
        whose value is `f`, or `|knowledge|` when there is none. */
    method PositionOf(f: Fact) returns (n: nat)
      ensures n == IndexOf(Values(knowledge), f)
      ensures n < |knowledge| <==> InKnowledge(f)
      ensures n < |knowledge| ==> knowledge[n].Value() == f
    {
      ghost var vs := Values(knowledge);
      ValuesAt(knowledge);
      n := 0;
      while n < |knowledge| && knowledge[n].Value() != f
        invariant 0 <= n <= |knowledge|
        invariant forall k :: 0 <= k < n ==> vs[k] != f
      {
        n := n + 1;
      }
    }

    /** The first pass of a round of inference (minesweeper/minesweeper.py:314-352): drop the
        sentences with no cells, and for each sentence whose cells are all
        mines, save its value, record its cells as mines and take them out of
        it (of it alone, so each sentence is resolved on its own value). */
    method ResolveSentences(ghost truth: set<Cell>) returns (found: bool)
      requires Valid()
      modifies this, knowledge
      ensures Valid()
      ensures movesMade == old(movesMade) && safes == old(safes)
      ensures knowledge == Kept(old(knowledge), old(Values(knowledge)), |old(knowledge)|)
      ensures mines == old(mines) + MinesOf(old(Values(knowledge)), |old(knowledge)|)
      ensures inferences == old(inferences) + Resolved(old(Values(knowledge)), |old(knowledge)|)
      ensures forall n :: 0 <= n < |old(knowledge)| ==>
                old(knowledge)[n].Value() == old(knowledge[n].Value()).AfterPass()
      ensures forall i :: 0 <= i < |knowledge| ==> knowledge[i] in old(knowledge)
      ensures forall n :: 0 <= n < |old(knowledge)| ==>
                (old(knowledge)[n] in knowledge <==> old(knowledge[n].cells) != {})
      ensures found <==> exists n :: 0 <= n < |old(knowledge)| && old(knowledge[n].Value()).KnownMines() != {}
      ensures !found ==> NothingToResolve()
      ensures found <==> |inferences| > |old(inferences)|
      ensures old(SoundIn(truth)) ==> SoundIn(truth)
    {
      var snap := knowledge;
      ghost var vals := Values(snap);
      ValuesAt(snap);
      ghost var wasSound := SoundIn(truth);
      assert wasSound ==> forall n :: 0 <= n < |vals| ==> vals[n].HoldsIn(truth);
      var kept;
      kept, found := PassOver(snap, vals, truth);
      FinishPass(snap, kept, vals, old(mines), old(inferences), truth, wasSound);
      ResolvedNone(vals, |snap|);
    }

    /** The end of the first pass: the sentences kept become the knowledge. */
    method FinishPass(snap: seq<Sentence>, kept: seq<Sentence>, ghost vals: seq<Fact>,
                      ghost m0: set<Cell>, ghost i0: seq<Fact>, ghost truth: set<Cell>, ghost wasSound: bool)
      requires Passed(snap, vals, |snap|, kept, m0, i0)
      requires forall n, m :: 0 <= n < m < |snap| ==> snap[n] != snap[m]
      requires movesMade <= safes
      requires wasSound ==> m0 <= truth && safes * truth == {}
      requires wasSound ==> forall n :: 0 <= n < |vals| ==> vals[n].HoldsIn(truth)
      modifies this
      ensures knowledge == kept && Valid()
      ensures mines == old(mines) && inferences == old(inferences)
      ensures movesMade == old(movesMade) && safes == old(safes)
      ensures forall i :: 0 <= i < |knowledge| ==> knowledge[i] in snap
      ensures forall n :: 0 <= n < |snap| ==> (snap[n] in knowledge <==> vals[n].cells != {})
      ensures wasSound ==> SoundIn(truth)
    {
      KeptDistinct(snap, vals, |snap|);
      forall i | 0 <= i < |kept| ensures kept[i] in snap {
        var n := KeptWitness(snap, vals, |snap|, i);
      }
      forall n | 0 <= n < |snap| ensures snap[n] in kept <==> vals[n].cells != {} {
        if vals[n].cells != {} {
          KeptContains(snap, vals, |snap|, n);
        } else if snap[n] in kept {
          var i :| 0 <= i < |kept| && kept[i] == snap[n];
          var m := KeptWitness(snap, vals, |snap|, i);
        }
      }
      knowledge := kept;
      if wasSound {
        MinesOfSound(vals, |snap|, truth);
        forall x | x in knowledge ensures x.Value().HoldsIn(truth) {
          var i :| 0 <= i < |kept| && kept[i] == x;
          var n := KeptWitness(snap, vals, |snap|, i);
          AfterPassSound(vals[n], truth);
        }
      }
    }

    /** The loop of the first pass over the sentences `snap`, whose values
        are `vals`. */
    method PassOver(snap: seq<Sentence>, ghost vals: seq<Fact>, ghost truth: set<Cell>)
      returns (kept: seq<Sentence>, found: bool)
      requires Passed(snap, vals, 0, [], mines, inferences)
      requires forall n, m :: 0 <= n < m < |snap| ==> snap[n] != snap[m]
      modifies this, snap
      ensures Passed(snap, vals, |snap|, kept, old(mines), old(inferences))
      ensures movesMade == old(movesMade) && safes == old(safes)
      ensures found <==> exists n :: 0 <= n < |snap| && vals[n].KnownMines() != {}
    {
      kept := [];
      found := false;
      for k := 0 to |snap|
        invariant Passed(snap, vals, k, kept, old(mines), old(inferences))
        invariant movesMade == old(movesMade) && safes == old(safes)
        invariant found <==> exists n :: 0 <= n < k && vals[n].KnownMines() != {}
      {
        var resolved;
        kept, resolved := ResolveAt(snap, k, kept, vals, old(mines), old(inferences), truth);
        found := found || resolved;
      }
    }

    /** The first pass has visited the first `k` sentences of `snap`, whose
        values were `vals` when the mines were `m0` and the saved values
        `i0`: those are resolved, the rest untouched, and `kept`, the mines
        and the saved values are what the pass makes of the first `k`. */
    ghost predicate Passed(snap: seq<Sentence>, vals: seq<Fact>, k: int, kept: seq<Sentence>, m0: set<Cell>, i0: seq<Fact>)
      reads this, snap
    {
      && 0 <= k <= |snap| == |vals| && knowledge == snap
      && (forall n :: k <= n < |snap| ==> snap[n].Value() == vals[n])
      && (forall n :: 0 <= n < k ==> snap[n].Value() == vals[n].AfterPass())
      && kept == Kept(snap, vals, k)
      && mines == m0 + MinesOf(vals, k)
      && inferences == i0 + Resolved(vals, k)
    }

    /** One iteration of the first pass: sentence `k` of `snap`. */
    method ResolveAt(snap: seq<Sentence>, k: int, kept: seq<Sentence>, ghost vals: seq<Fact>,
                     ghost m0: set<Cell>, ghost i0: seq<Fact>, ghost truth: set<Cell>)
      returns (kept': seq<Sentence>, resolved: bool)
      requires 0 <= k < |snap| && Passed(snap, vals, k, kept, m0, i0)
      requires forall n, m :: 0 <= n < m < |snap| ==> snap[n] != snap[m]
      modifies this, snap[k]
      ensures Passed(snap, vals, k + 1, kept', m0, i0)
      ensures movesMade == old(movesMade) && safes == old(safes)
      ensures resolved <==> vals[k].KnownMines() != {}
    {
      var sentence := snap[k];
      var keep;
      keep, resolved := ResolveOne(sentence, truth);
      kept' := if keep then kept + [sentence] else kept;
    }

    /** The loop body of the first pass for one sentence: whether it stays
        (it has cells) and whether it gave up mines, which it then has
        saved, recorded and taken out of itself. */
    method ResolveOne(sentence: Sentence, ghost truth: set<Cell>) returns (keep: bool, resolved: bool)
      modifies this, sentence
      ensures keep <==> old(sentence.cells) != {}
      ensures resolved <==> old(sentence.Value()).KnownMines() != {}
      ensures !resolved ==> sentence.Value() == old(sentence.Value()) && mines == old(mines)
      ensures resolved ==> mines == old(mines) + old(sentence.cells)
      ensures sentence.Value() == old(sentence.Value()).AfterPass()
      ensures mines == old(mines) + old(sentence.Value()).KnownMines()
      ensures inferences == old(inferences) + if resolved then [old(sentence.Value())] else []
      ensures safes == old(safes) && movesMade == old(movesMade) && knowledge == old(knowledge)
      ensures old(sentence.Value().HoldsIn(truth)) && old(mines) <= truth ==>
                sentence.Value().HoldsIn(truth) && mines <= truth
    {
      keep := |sentence.cells| != 0;
      resolved := false;
      if keep {
        var known := sentence.Value().KnownMines();
        if known != {} {
          resolved := true;
          if |sentence.cells| == |known| {
            inferences := inferences + [sentence.Value()];
          }
          if sentence.Value().HoldsIn(truth) {
            KnownMinesSound(sentence.Value(), truth);
          }
          RecordKnownMines(sentence, known, truth);
        }
      }
    }

    /** minesweeper/minesweeper.py:333-335: record each cell of `known` as a mine and take it out
        of `sentence` (only of that sentence). */
    method RecordKnownMines(sentence: Sentence, known: set<Cell>, ghost truth: set<Cell>)
      requires known <= sentence.cells
      modifies this, sentence
      ensures mines == old(mines) + known
      ensures safes == old(safes) && movesMade == old(movesMade)
      ensures knowledge == old(knowledge) && inferences == old(inferences)
      ensures sentence.Value() == Fact(old(sentence.cells) - known, old(sentence.count) - |known|)
      ensures old(sentence.Value().HoldsIn(truth)) && known <= truth ==> sentence.Value().HoldsIn(truth)
    {
      ghost var f0 := sentence.Value();
      ghost var taken: set<Cell> := {};
      var pending := known;
      while pending != {}
        invariant taken <= known && pending == known - taken
        invariant mines == old(mines) + taken
        invariant safes == old(safes) && movesMade == old(movesMade)
        invariant knowledge == old(knowledge) && inferences == old(inferences)
        invariant sentence.cells == f0.cells - taken && sentence.count == f0.count - |taken|
        invariant f0.HoldsIn(truth) && known <= truth ==> sentence.Value().HoldsIn(truth)
        decreases pending
      {
        var c :| c in pending;
        ghost var before := sentence.Value();
        mines := mines + {c};
        sentence.MarkMine(c);
        if f0.HoldsIn(truth) && known <= truth {
          MarkedMineKeepsTruth(before, truth, c);
        }
        taken := taken + {c};
        pending := pending - {c};
      }
    }

    /** The second pass of a round of inference (minesweeper/minesweeper.py:356-391): for two
        different sentences with cells, the first's cells among the
        second's, add the sentence their difference makes unless its value
        is known or was derived before; of two sentences with equal values,
        remove the first sentence holding that value. Afterwards every pair
        of the sentences visited that is still in knowledge has had its
        difference added or found known (`CombinedUpTo`), and what was added
        and removed is as `Combined` says. */
    method CombineSentences(ghost truth: set<Cell>) returns (derived: bool)
      requires Valid()
      modifies this
      ensures Valid()
      ensures movesMade == old(movesMade) && safes == old(safes) && mines == old(mines)
      ensures forall x :: x in knowledge ==> x in old(knowledge) || fresh(x)
      ensures forall i :: 0 <= i < |knowledge| ==> knowledge[i] in old(knowledge) || fresh(knowledge[i])
      ensures derived <==> |inferences| > |old(inferences)|
      ensures Combined(old(knowledge), old(Values(knowledge)), old(inferences))
      ensures CombinedUpTo(old(knowledge), old(Values(knowledge)), |old(knowledge)|, 0)
      ensures old(SoundIn(truth)) ==> SoundIn(truth)
    {
      derived := false;
      var snap := knowledge;
      ghost var vals := Values(snap);
      ValuesAt(snap);
      if |knowledge| <= 1 {
        return;
      }
      for n := 0 to |snap|
        invariant Valid()
        invariant movesMade == old(movesMade) && safes == old(safes) && mines == old(mines)
        invariant forall x :: x in knowledge ==> x in old(knowledge) || fresh(x)
        invariant derived <==> |inferences| > |old(inferences)|
        invariant Combined(snap, vals, old(inferences)) && CombinedUpTo(snap, vals, n, 0)
        invariant old(SoundIn(truth)) ==> SoundIn(truth)
      {
        for m := 0 to |snap|
          invariant Valid()
          invariant movesMade == old(movesMade) && safes == old(safes) && mines == old(mines)
          invariant forall x :: x in knowledge ==> x in old(knowledge) || fresh(x)
          invariant derived <==> |inferences| > |old(inferences)|
          invariant Combined(snap, vals, old(inferences)) && CombinedUpTo(snap, vals, n, m)
          invariant old(SoundIn(truth)) ==> SoundIn(truth)
        {
          var added := CombinePair(n, m, snap, vals, old(inferences), truth);
          derived := derived || added;
        }
      }
    }

    /** The body of the second pass for the pair `(snap[n], snap[m])`; a
        sentence removed earlier in the pass is no longer visited. */
    method CombinePair(n: nat, m: nat, snap: seq<Sentence>, ghost vals: seq<Fact>, ghost i0: seq<Fact>, ghost truth: set<Cell>)
      returns (added: bool)
      requires Valid() && n < |snap| && m < |snap|
      requires Combined(snap, vals, i0) && CombinedUpTo(snap, vals, n, m)
      modifies this
      ensures Valid() && Combined(snap, vals, i0) && CombinedUpTo(snap, vals, n, m + 1)
      ensures movesMade == old(movesMade) && safes == old(safes) && mines == old(mines)
      ensures forall x :: x in knowledge ==> x in old(knowledge) || fresh(x)
      ensures old(inferences) <= inferences
      ensures added <==> |inferences| > |old(inferences)|
      ensures old(SoundIn(truth)) ==> SoundIn(truth)
    {
      var sentence, sentenceTwo := snap[n], snap[m];
      added := false;
      if sentence != sentenceTwo && sentence in knowledge && sentenceTwo in knowledge {
        if sentence.Value() != sentenceTwo.Value() && |sentence.cells| > 0 && |sentenceTwo.cells| > 0 {
          if sentence.cells <= sentenceTwo.cells {
            var f := Difference(sentence.Value(), sentenceTwo.Value());
            if !InKnowledge(f) && f !in inferences {
              if SoundIn(truth) {
                SubsetInferenceSound(sentence.Value(), sentenceTwo.Value(), truth);
              }
              var _ := AddInference(f, snap, vals, i0, n, m, truth);
              added := true;
            } else if InKnowledge(f) {
              KnownInPass(snap, vals, i0, f);
            }
          }
        } else if sentence.Value() == sentenceTwo.Value() {
          DropDuplicate(sentence, sentenceTwo, snap, vals, i0, n, m, truth);
        }
      }
      CoveredNext(snap, vals, n, m, knowledge, inferences);
    }

    /** During the second pass a value held by a sentence is one of `vals`
        or an inference. */
    lemma KnownInPass(snap: seq<Sentence>, vals: seq<Fact>, i0: seq<Fact>, f: Fact)
      requires Combined(snap, vals, i0) && InKnowledge(f)
      ensures f in vals || f in inferences
    {
      ValuesAt(knowledge);
      var j :| 0 <= j < |knowledge| && knowledge[j].Value() == f;
      if knowledge[j] in snap {
        var k :| 0 <= k < |snap| && snap[k] == knowledge[j];
      } else {
        assert Values(knowledge)[j] in inferences[|i0|..];
      }
    }

    /** A derived sentence is appended to knowledge and to the inferences. */
    method AddInference(f: Fact, ghost snap: seq<Sentence>, ghost vals: seq<Fact>, ghost i0: seq<Fact>,
                        ghost n: nat, ghost m: nat, ghost truth: set<Cell>) returns (added: Sentence)
      requires Valid() && Combined(snap, vals, i0) && CombinedUpTo(snap, vals, n, m)
      requires n < |vals| && m < |vals| && Subsumes(vals[n], vals[m]) && f == Difference(vals[n], vals[m])
      requires !InKnowledge(f) && f !in inferences
      modifies this
      ensures Valid() && Combined(snap, vals, i0) && CombinedUpTo(snap, vals, n, m)
      ensures movesMade == old(movesMade) && safes == old(safes) && mines == old(mines)
      ensures knowledge == old(knowledge) + [added] && fresh(added) && added.Value() == f
      ensures inferences == old(inferences) + [f]
      ensures old(SoundIn(truth)) && f.HoldsIn(truth) ==> SoundIn(truth)
    {
      ghost var kvs := Values(knowledge);
      InKnowledgeValues(f);
      added := Append(f, truth);
      ValuesAppend(old(knowledge), added);
      assert Derivable(vals, f);
      PassAppend(snap, vals, i0, old(knowledge), kvs, old(inferences), added, f);
      assert added !in snap;
      CoveredMono(snap, vals, n, m, old(knowledge), old(inferences), knowledge, inferences);
    }

    /** A new sentence with value `f` is appended to knowledge, and `f` to
        the inferences. */
    method Append(f: Fact, ghost truth: set<Cell>) returns (added: Sentence)
      requires Valid()
      modifies this
      ensures Valid()
      ensures movesMade == old(movesMade) && safes == old(safes) && mines == old(mines)
      ensures knowledge == old(knowledge) + [added] && fresh(added) && added.Value() == f
      ensures inferences == old(inferences) + [f]
      ensures old(SoundIn(truth)) && f.HoldsIn(truth) ==> SoundIn(truth)
    {
      added := new Sentence(f.cells, f.count);
      knowledge := knowledge + [added];
      inferences := inferences + [f];
    }

    /** Of two different sentences with equal values, the first sentence
        holding that value is removed; a sentence with that value stays. */
    method DropDuplicate(sentence: Sentence, sentenceTwo: Sentence, ghost snap: seq<Sentence>, ghost vals: seq<Fact>,
                         ghost i0: seq<Fact>, ghost n: nat, ghost m: nat, ghost truth: set<Cell>)
      requires Valid() && Combined(snap, vals, i0) && CombinedUpTo(snap, vals, n, m)
      requires sentence in knowledge && sentenceTwo in knowledge && sentence != sentenceTwo
      requires sentence.Value() == sentenceTwo.Value()
      modifies this
      ensures Valid() && Combined(snap, vals, i0) && CombinedUpTo(snap, vals, n, m)
      ensures movesMade == old(movesMade) && safes == old(safes) && mines == old(mines) && inferences == old(inferences)
      ensures forall x :: x in knowledge ==> x in old(knowledge)
      ensures var vs := old(Values(knowledge)); var p := IndexOf(vs, old(sentence.Value()));
                p < |vs| && knowledge == old(knowledge)[..p] + old(knowledge)[p + 1..]
      ensures old(SoundIn(truth)) ==> SoundIn(truth)
    {
      ghost var before := knowledge;
      ghost var kvs := Values(knowledge);
      ghost var p, q := RemoveDuplicate(sentence, sentenceTwo, truth);
      DroppedCombined(snap, vals, i0, n, m, before, kvs, p, q);
    }

    /** The removal `DropDuplicate` makes, with the positions it concerns:
        `p` the first holding the common value, taken out, and `q` another
        holding it. */
    method RemoveDuplicate(sentence: Sentence, sentenceTwo: Sentence, ghost truth: set<Cell>) returns (ghost p: nat, ghost q: nat)
      requires Valid()
      requires sentence in knowledge && sentenceTwo in knowledge && sentence != sentenceTwo
      requires sentence.Value() == sentenceTwo.Value()
      modifies this
      ensures Valid()
      ensures movesMade == old(movesMade) && safes == old(safes) && mines == old(mines) && inferences == old(inferences)
      ensures var vs := old(Values(knowledge));
                p == IndexOf(vs, old(sentence.Value())) && p < |vs| && q < |vs| && p != q && vs[q] == vs[p]
      ensures knowledge == old(knowledge)[..p] + old(knowledge)[p + 1..]
      ensures forall x :: x in knowledge ==> x in old(knowledge)
      ensures old(SoundIn(truth)) ==> SoundIn(truth)
    {
      var f := sentenceTwo.Value();
      p, q := DuplicateAt(sentence, sentenceTwo);
      RemoveHeld(f, p, truth);
    }

    /** Two different sentences of knowledge with equal values: `p` is the
        first position holding that value, `q` another. */
    lemma DuplicateAt(sentence: Sentence, sentenceTwo: Sentence) returns (p: nat, q: nat)
      requires sentence in knowledge && sentenceTwo in knowledge && sentence != sentenceTwo
      requires sentence.Value() == sentenceTwo.Value()
      ensures var vs := Values(knowledge);
                p == IndexOf(vs, sentence.Value()) && p < |vs| && q < |vs| && p != q && vs[q] == vs[p]
    {
      var i :| 0 <= i < |knowledge| && knowledge[i] == sentence;
      var j :| 0 <= j < |knowledge| && knowledge[j] == sentenceTwo;
      ValueAt(knowledge, i);
      ValueAt(knowledge, j);
      TwiceIndexed(Values(knowledge), i, j);
      p := IndexOf(Values(knowledge), sentence.Value());
      q := if i == p then j else i;
    }

    /** Taking position `p` out of knowledge `before`, whose value is also at
        `q`, keeps the second pass's bookkeeping. */
    lemma DroppedCombined(snap: seq<Sentence>, vals: seq<Fact>, i0: seq<Fact>, n: nat, m: nat,
                          before: seq<Sentence>, kvs: seq<Fact>, p: nat, q: nat)
      requires forall k :: 0 <= k < |snap| && k < |vals| ==> snap[k].Value() == vals[k]
      requires PassState(snap, vals, i0, before, kvs, inferences) && Covered(snap, vals, n, m, before, inferences)
      requires Values(before) == kvs && p < |kvs| && q < |kvs| && p != q && kvs[q] == kvs[p]
      requires knowledge == before[..p] + before[p + 1..]
      ensures Combined(snap, vals, i0) && CombinedUpTo(snap, vals, n, m)
    {
      DropAt(before, p, knowledge);
      ValuesDropAt(before, p, knowledge);
      PassDrop(snap, vals, i0, before, kvs, inferences, p, q, knowledge, Values(knowledge));
      CoveredMono(snap, vals, n, m, before, inferences, knowledge, inferences);
    }

    /** `knowledge.remove` of a value held first at position `p` takes out
        exactly that position, and nothing else changes. */
    method RemoveHeld(f: Fact, ghost p: nat, ghost truth: set<Cell>)
      requires Valid() && p < |knowledge| && p == IndexOf(Values(knowledge), f)
      modifies this
      ensures Valid()
      ensures movesMade == old(movesMade) && safes == old(safes) && mines == old(mines) && inferences == old(inferences)
      ensures knowledge == old(knowledge)[..p] + old(knowledge)[p + 1..]
      ensures forall x :: x in knowledge ==> x in old(knowledge)
      ensures old(SoundIn(truth)) ==> SoundIn(truth)
    {
      ghost var before := knowledge;
      RemoveFirstEqual(f);
      assert knowledge == before[..p] + before[p + 1..];
      assert forall x :: x in knowledge ==> x in before;
    }

    /** `add_knowledge(cell, count)`: the board reports `count` mines around
        the clicked `cell`. Record the move; mark every neighbour safe when
        the count is zero, or a mine when it equals the number of
        neighbours, and otherwise add the sentence the count makes; then run
        rounds of inference while they find something, at most `fuel` of
        them. Everything the player knows stays true of the real mine set
        `truth` when the report is. */
    method AddKnowledge(cell: Cell, count: int, fuel: nat, ghost truth: set<Cell>) returns (settled: bool)
      requires Valid()
      modifies this, knowledge
      ensures Valid()
      ensures settled ==> Quiet()
      ensures movesMade == old(movesMade) + {cell} && cell in safes
      ensures old(safes) <= safes && old(mines) <= mines
      ensures count == 0 ==> Neighbourhood(height, width, cell) <= safes
      ensures count != 0 && count == |Neighbourhood(height, width, cell)| ==> Neighbourhood(height, width, cell) <= mines
      ensures old(SoundIn(truth)) && cell !in truth && count == |Neighbourhood(height, width, cell) * truth| ==>
                SoundIn(truth)
    {
      RecordReport(cell, count, truth);
      settled := Infer(fuel, truth);
    }

    /** The part of add_knowledge before its inference loop: record the move, then take
        the branch the count selects. */
    method RecordReport(cell: Cell, count: int, ghost truth: set<Cell>)
      requires Valid()
      modifies this, knowledge
      ensures Valid()
      ensures forall i :: 0 <= i < |knowledge| ==> knowledge[i] in old(knowledge) || fresh(knowledge[i])
      ensures movesMade == old(movesMade) + {cell} && cell in safes
      ensures old(safes) <= safes && old(mines) <= mines
      ensures count == 0 ==> Neighbourhood(height, width, cell) <= safes
      ensures count != 0 && count == |Neighbourhood(height, width, cell)| ==> Neighbourhood(height, width, cell) <= mines
      ensures old(SoundIn(truth)) && cell !in truth && count == |Neighbourhood(height, width, cell) * truth| ==>
                SoundIn(truth)
    {
      ghost var around := Neighbourhood(height, width, cell);
      ghost var told := SoundIn(truth) && cell !in truth && count == |around * truth|;
      RecordMove(cell, truth);
      var neighbours := CountNeighbours(cell);
      if count == 0 {
        if told {
          NoMineAround(around, truth, count);
        }
        MarkNeighboursSafe(cell, truth);
      } else if count == neighbours {
        if told {
          AllMinesAround(around, truth);
        }
        MarkNeighboursMines(cell, truth);
      } else {
        var f := NewSentence(cell, count);
        if told {
          NewSentenceSound(around, movesMade, safes, mines, truth, count);
        }
        AddSentence(f, truth);
      }
    }

    /** The first lines of add_knowledge: the clicked cell is a move made and
        a safe cell. */
    method RecordMove(cell: Cell, ghost truth: set<Cell>)
      requires Valid()
      modifies this
      ensures Valid()
      ensures movesMade == old(movesMade) + {cell} && safes == old(safes) + {cell}
      ensures mines == old(mines) && knowledge == old(knowledge) && inferences == old(inferences)
      ensures old(SoundIn(truth)) && cell !in truth ==> SoundIn(truth)
    {
      movesMade := movesMade + {cell};
      safes := safes + {cell};
    }

    /** The `count == 0` branch of add_knowledge: every in-bounds neighbour not yet known
        to be safe is marked safe, and only those are taken out of the sentences. */
    method MarkNeighboursSafe(cell: Cell, ghost truth: set<Cell>)
      requires Valid()
      modifies this, knowledge
      ensures Valid() && knowledge == old(knowledge)
      ensures safes == old(safes) + Neighbourhood(height, width, cell)
      ensures movesMade == old(movesMade) && mines == old(mines) && inferences == old(inferences)
      ensures forall n :: 0 <= n < |knowledge| ==>
                knowledge[n].Value() ==
                Fact(old(knowledge[n].cells) - (Neighbourhood(height, width, cell) - old(safes)), old(knowledge[n].count))
      ensures old(SoundIn(truth)) && Neighbourhood(height, width, cell) * truth == {} ==> SoundIn(truth)
    {
      ghost var around := Neighbourhood(height, width, cell);
      ghost var told := SoundIn(truth) && around * truth == {};
      UptoStart(around, cell);
      for i := cell.0 - 1 to cell.0 + 2
        invariant Valid() && knowledge == old(knowledge)
        invariant movesMade == old(movesMade) && mines == old(mines) && inferences == old(inferences)
        invariant safes == old(safes) + Upto(around, i, cell.1 - 1)
        invariant forall n :: 0 <= n < |knowledge| ==>
                    knowledge[n].Value() == Fact(old(knowledge[n].cells) - (safes - old(safes)), old(knowledge[n].count))
        invariant told ==> SoundIn(truth)
      {
        for j := cell.1 - 1 to cell.1 + 2
          invariant Valid() && knowledge == old(knowledge)
          invariant movesMade == old(movesMade) && mines == old(mines) && inferences == old(inferences)
          invariant safes == old(safes) + Upto(around, i, j)
          invariant forall n :: 0 <= n < |knowledge| ==>
                      knowledge[n].Value() == Fact(old(knowledge[n].cells) - (safes - old(safes)), old(knowledge[n].count))
          invariant told ==> SoundIn(truth)
        {
          UptoStep(around, i, j);
          if (i, j) != cell && 0 <= i < height && 0 <= j < width {
            assert (i, j) in around;
            if (i, j) !in safes {
              MarkSafe((i, j), truth);
            }
          }
        }
        UptoRow(around, cell, i);
      }
      UptoEnd(around, cell);
    }

    /** The `count == neighbours` branch of add_knowledge: every in-bounds neighbour not
        yet known to be a mine is marked a mine, and only those are taken out of the
        sentences, each lowering the count of a sentence that has it. */
    method MarkNeighboursMines(cell: Cell, ghost truth: set<Cell>)
      requires Valid()
      modifies this, knowledge
      ensures Valid() && knowledge == old(knowledge)
      ensures mines == old(mines) + Neighbourhood(height, width, cell)
      ensures movesMade == old(movesMade) && safes == old(safes) && inferences == old(inferences)
      ensures forall n :: 0 <= n < |knowledge| ==>
                knowledge[n].Value() == old(knowledge[n].Value()).MinesMarked(Neighbourhood(height, width, cell) - old(mines))
      ensures old(SoundIn(truth)) && Neighbourhood(height, width, cell) <= truth ==> SoundIn(truth)
    {
      ghost var around := Neighbourhood(height, width, cell);
      ghost var told := SoundIn(truth) && around <= truth;
      ghost var vs := Values(knowledge);
      ValuesAt(knowledge);
      UptoStart(around, cell);
      assert mines - old(mines) == {};
      forall n | 0 <= n < |knowledge| ensures knowledge[n].Value() == vs[n].MinesMarked({}) {
        assert vs[n].cells * {} == {};
      }
      for i := cell.0 - 1 to cell.0 + 2
        invariant Valid() && knowledge == old(knowledge)
        invariant movesMade == old(movesMade) && safes == old(safes) && inferences == old(inferences)
        invariant mines == old(mines) + Upto(around, i, cell.1 - 1)
        invariant forall n :: 0 <= n < |knowledge| ==> knowledge[n].Value() == vs[n].MinesMarked(mines - old(mines))
        invariant told ==> SoundIn(truth)
      {
        MarkRowMines(cell, i, old(mines), vs, truth);
      }
      UptoEnd(around, cell);
      assert mines - old(mines) == around - old(mines);
    }

    /** Row `i` of the scan of the `count == neighbours` branch. */
    method MarkRowMines(cell: Cell, i: int, ghost m0: set<Cell>, ghost vs: seq<Fact>, ghost truth: set<Cell>)
      requires Valid() && |vs| == |knowledge| && cell.0 - 1 <= i <= cell.0 + 1
      requires mines == m0 + Upto(Neighbourhood(height, width, cell), i, cell.1 - 1)
      requires forall n :: 0 <= n < |knowledge| ==> knowledge[n].Value() == vs[n].MinesMarked(mines - m0)
      modifies this, knowledge
      ensures Valid() && knowledge == old(knowledge)
      ensures mines == m0 + Upto(Neighbourhood(height, width, cell), i + 1, cell.1 - 1)
      ensures movesMade == old(movesMade) && safes == old(safes) && inferences == old(inferences)
      ensures forall n :: 0 <= n < |knowledge| ==> knowledge[n].Value() == vs[n].MinesMarked(mines - m0)
      ensures old(SoundIn(truth)) && Neighbourhood(height, width, cell) <= truth ==> SoundIn(truth)
    {
      ghost var around := Neighbourhood(height, width, cell);
      ghost var told := SoundIn(truth) && around <= truth;
      for j := cell.1 - 1 to cell.1 + 2
        invariant Valid() && knowledge == old(knowledge)
        invariant movesMade == old(movesMade) && safes == old(safes) && inferences == old(inferences)
        invariant mines == m0 + Upto(around, i, j)
        invariant forall n :: 0 <= n < |knowledge| ==> knowledge[n].Value() == vs[n].MinesMarked(mines - m0)
        invariant told ==> SoundIn(truth)
      {
        UptoStep(around, i, j);
        if (i, j) != cell && 0 <= i < height && 0 <= j < width {
          assert (i, j) in around;
          if (i, j) !in mines {
            MarkNewMine((i, j), m0, vs, truth);
          } else {
            assert (i, j) in m0;
          }
        }
      }
      UptoRow(around, cell, i);
    }

    /** One step of the `count == neighbours` branch: the cell `c`, not yet a known mine,
        is marked a mine. The sentences, whose values were `vs` when the mines were
        `m0`, stay those values with the new mines taken out. */
    method MarkNewMine(c: Cell, ghost m0: set<Cell>, ghost vs: seq<Fact>, ghost truth: set<Cell>)
      requires Valid() && c !in mines && m0 <= mines && |vs| == |knowledge|
      requires forall n :: 0 <= n < |knowledge| ==> knowledge[n].Value() == vs[n].MinesMarked(mines - m0)
      modifies this, knowledge
      ensures Valid() && knowledge == old(knowledge)
      ensures mines == old(mines) + {c}
      ensures movesMade == old(movesMade) && safes == old(safes) && inferences == old(inferences)
      ensures forall n :: 0 <= n < |knowledge| ==> knowledge[n].Value() == vs[n].MinesMarked(mines - m0)
      ensures old(SoundIn(truth)) && c in truth ==> SoundIn(truth)
    {
      forall n | 0 <= n < |knowledge|
        ensures vs[n].MinesMarked(mines - m0).MarkedMine(c) == vs[n].MinesMarked(mines - m0 + {c})
      {
        MinesTakenStep(vs[n].cells, mines - m0, c);
      }
      MarkMine(c, truth);
      assert mines - m0 == old(mines) - m0 + {c};
    }

    /** The remaining branch of add_knowledge: the new sentence is appended unless one with
        the same value is in knowledge or was derived before. */
    method AddSentence(f: Fact, ghost truth: set<Cell>)
      requires Valid()
      modifies this
      ensures Valid()
      ensures movesMade == old(movesMade) && safes == old(safes) && mines == old(mines)
      ensures inferences == old(inferences)
      ensures forall i :: 0 <= i < |knowledge| ==> knowledge[i] in old(knowledge) || fresh(knowledge[i])
      ensures old(InKnowledge(f)) || f in inferences ==> knowledge == old(knowledge)
      ensures !old(InKnowledge(f)) && f !in inferences ==>
                |knowledge| == |old(knowledge)| + 1 && knowledge[..|old(knowledge)|] == old(knowledge) &&
                fresh(knowledge[|old(knowledge)|]) && knowledge[|old(knowledge)|].Value() == f
      ensures old(SoundIn(truth)) && f.HoldsIn(truth) ==> SoundIn(truth)
    {
      if !InKnowledge(f) && f !in inferences {
        var added := new Sentence(f.cells, f.count);
        knowledge := knowledge + [added];
      }
    }

    /** The inference loop of add_knowledge (minesweeper/minesweeper.py:307-392): rounds
        while a round found something and knowledge is not empty, for at
        most `fuel` rounds. `settled` says the loop stopped on its own
        condition; the player has then reached a fixpoint. Otherwise every
        one of the `fuel` rounds added an inference. */
    method Infer(fuel: nat, ghost truth: set<Cell>) returns (settled: bool)
      requires Valid()
      modifies this, knowledge
      ensures Valid()
      ensures movesMade == old(movesMade)
      ensures old(safes) <= safes && old(mines) <= mines
      ensures settled ==> Quiet()
      ensures !settled ==> |inferences| >= |old(inferences)| + fuel
      ensures old(SoundIn(truth)) ==> SoundIn(truth)
    {
      ghost var sound := SoundIn(truth);
      var newKnowledge := true;
      var rounds := fuel;
      while newKnowledge && |knowledge| != 0 && rounds > 0
        invariant Valid()
        invariant movesMade == old(movesMade)
        invariant old(safes) <= safes && old(mines) <= mines
        invariant rounds <= fuel
        invariant forall x :: x in knowledge ==> x in old(knowledge) || fresh(x)
        invariant forall i :: 0 <= i < |knowledge| ==> knowledge[i] in old(knowledge) || fresh(knowledge[i])
        invariant !newKnowledge ==> Quiet()
        invariant newKnowledge ==> |inferences| >= |old(inferences)| + (fuel - rounds)
        invariant sound ==> SoundIn(truth)
        decreases rounds
      {
        newKnowledge := Round(truth);
        rounds := rounds - 1;
      }
      settled := !(newKnowledge && |knowledge| != 0);
    }

    /** One round of the inference loop (minesweeper/minesweeper.py:310-392): the first
        pass, then the second. It reports whether either added an
        inference; when neither did, a further round would find nothing. */
    method Round(ghost truth: set<Cell>) returns (newKnowledge: bool)
      requires Valid()
      modifies this, knowledge
      ensures Valid()
      ensures movesMade == old(movesMade) && safes == old(safes) && old(mines) <= mines
      ensures forall x :: x in knowledge ==> x in old(knowledge) || fresh(x)
      ensures forall i :: 0 <= i < |knowledge| ==> knowledge[i] in old(knowledge) || fresh(knowledge[i])
      ensures newKnowledge <==> |inferences| > |old(inferences)|
      ensures !newKnowledge ==> Quiet()
      ensures old(SoundIn(truth)) ==> SoundIn(truth)
    {
      var found := ResolveSentences(truth);
      var derived := CombineQuietly(truth);
      newKnowledge := found || derived;
    }

    /** The second pass of a round, with what a pass that derived nothing
        leaves behind. */
    method CombineQuietly(ghost truth: set<Cell>) returns (derived: bool)
      requires Valid()
      modifies this
      ensures Valid()
      ensures movesMade == old(movesMade) && safes == old(safes) && mines == old(mines)
      ensures forall x :: x in knowledge ==> x in old(knowledge) || fresh(x)
      ensures forall i :: 0 <= i < |knowledge| ==> knowledge[i] in old(knowledge) || fresh(knowledge[i])
      ensures old(inferences) <= inferences
      ensures derived <==> |inferences| > |old(inferences)|
      ensures !derived && old(NothingToResolve()) ==> Quiet()
      ensures old(SoundIn(truth)) ==> SoundIn(truth)
    {
      ghost var mid := knowledge;
      ghost var midVals := Values(knowledge);
      ghost var midInf := inferences;
      ghost var resolved := NothingToResolve();
      derived := CombineSentences(truth);
      if !derived && resolved {
        QuietAfterPass(mid, midVals, midInf);
      }
    }
  }
}
