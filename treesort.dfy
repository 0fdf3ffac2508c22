/**
 * The tree-aware sort of tests/testlistview.c: compare_files, sort_tree and
 * the invert_sort flag that toggle_sort flips.
 *
 * The rows of the flattened tree are kept in an arena: a row is an index
 * into a sequence, with the entry it shows, the index of its parent row (None
 * for a top-level row) and its depth, the number of its ancestors.
 */
module TreeSort {
  import opened Wrappers
  import opened Files
  import opened CString

  datatype Row = Row(item: Entry, parent: Option<nat>, depth: nat)

  /** Row i's parent link is consistent with its depth. */
  predicate RowLinked(t: seq<Row>, i: nat)
    requires i < |t|
  {
    match t[i].parent
    case None => t[i].depth == 0
    case Some(p) => p < |t| && t[p].depth + 1 == t[i].depth
  }

  /** Every row is linked to an existing parent one level up, so walking up ends at a top-level row. */
  predicate WellFormed(t: seq<Row>)
  {
    forall i :: 0 <= i < |t| ==> RowLinked(t, i)
  }

  /** The ancestor of row r at depth d (r itself when d is r's depth). */
  function Anc(t: seq<Row>, r: nat, d: nat): (x: nat)
    requires WellFormed(t) && r < |t| && d <= t[r].depth
    ensures x < |t| && t[x].depth == d
    ensures d == t[r].depth ==> x == r
    decreases t[r].depth
  {
    assert RowLinked(t, r);
    if t[r].depth == d then r else Anc(t, t[r].parent.value, d)
  }

  /** Going up to depth d1 and then to d2 is going up to d2. */
  lemma {:induction false} AncOfAnc(t: seq<Row>, r: nat, d1: nat, d2: nat)
    requires WellFormed(t) && r < |t| && d2 <= d1 <= t[r].depth
    ensures Anc(t, Anc(t, r, d1), d2) == Anc(t, r, d2)
    decreases t[r].depth
  {
    if t[r].depth != d1 {
      assert RowLinked(t, r);
      AncOfAnc(t, t[r].parent.value, d1, d2);
    }
  }

  /** The parent of r's ancestor at depth k is r's ancestor at depth k - 1 (none at depth 0). */
  lemma AncParent(t: seq<Row>, r: nat, k: nat)
    requires WellFormed(t) && r < |t| && k <= t[r].depth
    ensures t[Anc(t, r, k)].parent == if k == 0 then None else Some(Anc(t, r, k - 1))
  {
    var x := Anc(t, r, k);
    assert RowLinked(t, x);
    if k > 0 {
      AncOfAnc(t, r, k, k - 1);
    }
  }

  /** Two rows that share their ancestor at depth j share every ancestor above it. */
  lemma AgreeAbove(t: seq<Row>, a: nat, b: nat, i: nat, j: nat)
    requires WellFormed(t) && a < |t| && b < |t|
    requires i <= j <= t[a].depth && j <= t[b].depth
    requires Anc(t, a, j) == Anc(t, b, j)
    ensures Anc(t, a, i) == Anc(t, b, i)
  {
    AncOfAnc(t, a, j, i);
    AncOfAnc(t, b, j, i);
  }

  /** Two rows that agree above depth j agree at every i < j and just above it. */
  lemma AgreeAtAndAbove(t: seq<Row>, a: nat, b: nat, i: nat, j: nat)
    requires WellFormed(t) && a < |t| && b < |t|
    requires i < j <= t[a].depth && j <= t[b].depth && Anc(t, a, j - 1) == Anc(t, b, j - 1)
    ensures Anc(t, a, i) == Anc(t, b, i)
    ensures i == 0 || Anc(t, a, i - 1) == Anc(t, b, i - 1)
  {
    AgreeAbove(t, a, b, i, j - 1);
    if i > 0 {
      AgreeAbove(t, a, b, i - 1, j - 1);
    }
  }

  /** A row under x has x's ancestors at depth j and just above it. */
  lemma DescendantSharesAncestors(t: seq<Row>, x: nat, c: nat, j: nat)
    requires WellFormed(t) && x < |t| && c < |t|
    requires t[x].depth <= t[c].depth && Anc(t, c, t[x].depth) == x && j <= t[x].depth
    ensures j <= t[c].depth && Anc(t, c, j) == Anc(t, x, j)
    ensures j == 0 || Anc(t, c, j - 1) == Anc(t, x, j - 1)
  {
    AncOfAnc(t, c, t[x].depth, j);
    if j > 0 {
      AncOfAnc(t, c, t[x].depth, j - 1);
    }
  }

  /**
   * The branch point of two rows whose ancestors at depth k differ: the
   * depth j at which their ancestors are distinct siblings, children of the
   * same row (or both top-level).
   */
  function Branch(t: seq<Row>, a: nat, b: nat, k: nat): (j: nat)
    requires WellFormed(t) && a < |t| && b < |t| && k <= t[a].depth && k <= t[b].depth
    requires Anc(t, a, k) != Anc(t, b, k)
    ensures j <= k && Anc(t, a, j) != Anc(t, b, j)
    ensures j == 0 || Anc(t, a, j - 1) == Anc(t, b, j - 1)
    decreases k
  {
    if k == 0 || Anc(t, a, k - 1) == Anc(t, b, k - 1) then k else Branch(t, a, b, k - 1)
  }

  /** Any depth with the two properties of a branch point is the branch point. */
  lemma BranchUnique(t: seq<Row>, a: nat, b: nat, k: nat, j: nat)
    requires WellFormed(t) && a < |t| && b < |t| && k <= t[a].depth && k <= t[b].depth
    requires j <= k && Anc(t, a, j) != Anc(t, b, j)
    requires j == 0 || Anc(t, a, j - 1) == Anc(t, b, j - 1)
    ensures Anc(t, a, k) != Anc(t, b, k) && Branch(t, a, b, k) == j
  {
    if Anc(t, a, k) == Anc(t, b, k) {
      AgreeAbove(t, a, b, j, k);
    }
    var i := Branch(t, a, b, k);
    if i < j {
      AgreeAbove(t, a, b, i, j - 1);
    } else if j < i {
      AgreeAbove(t, a, b, j, i - 1);
    }
  }

  /** compare_files: the case-insensitive comparison of the two entries' paths. */
  function CompareFiles(x: Entry, y: Entry): (r: int)
    ensures -1 <= r <= 1
    ensures r == 0 <==> Fold(x.file.path) == Fold(y.file.path)
  {
    CaseCmp(x.file.path, y.file.path)
  }

  /** compare_files is negative exactly when x's folded path comes first in dictionary order, positive exactly when y's does. */
  lemma CompareFilesOrder(x: Entry, y: Entry)
    ensures CompareFiles(x, y) < 0 <==> LexLess(Fold(x.file.path), Fold(y.file.path))
    ensures CompareFiles(x, y) > 0 <==> LexLess(Fold(y.file.path), Fold(x.file.path))
  {
    CaseCmpOrder(x.file.path, y.file.path);
  }

  function Min(x: nat, y: nat): nat
  {
    if x < y then x else y
  }

  /**
   * What sort_tree answers for rows a and b. When one row is the other or
   * one of its ancestors, the difference of their depths: the ancestor comes
   * first. Otherwise the comparison of their ancestors at the branch point,
   * reversed when the sort is inverted.
   */
  function TreeOrder(t: seq<Row>, a: nat, b: nat, invert: bool): (r: int)
    requires WellFormed(t) && a < |t| && b < |t|
    ensures OnOneLine(t, a, b) ==> (r == 0 <==> a == b)
    ensures !OnOneLine(t, a, b) ==> -1 <= r <= 1
  {
    var m := Min(t[a].depth, t[b].depth);
    if Anc(t, a, m) == Anc(t, b, m) then t[a].depth as int - t[b].depth as int
    else
      var j := Branch(t, a, b, m);
      var c := CompareFiles(t[Anc(t, a, j)].item, t[Anc(t, b, j)].item);
      if invert then -c else c
  }

  /** Rows a and b are on one line of descent: one is the other or an ancestor of it. */
  predicate OnOneLine(t: seq<Row>, a: nat, b: nat)
    requires WellFormed(t) && a < |t| && b < |t|
  {
    var m := Min(t[a].depth, t[b].depth);
    Anc(t, a, m) == Anc(t, b, m)
  }

  /** The branch point is the same from either side. */
  lemma {:induction false} BranchSymmetric(t: seq<Row>, a: nat, b: nat, k: nat)
    requires WellFormed(t) && a < |t| && b < |t| && k <= t[a].depth && k <= t[b].depth
    requires Anc(t, a, k) != Anc(t, b, k)
    ensures Branch(t, b, a, k) == Branch(t, a, b, k)
    decreases k
  {
    if !(k == 0 || Anc(t, a, k - 1) == Anc(t, b, k - 1)) {
      BranchSymmetric(t, a, b, k - 1);
    }
  }

  /** Swapping the rows flips the sign: the comparator is antisymmetric, and a row ties with itself. */
  lemma TreeOrderAntisymmetric(t: seq<Row>, a: nat, b: nat, invert: bool)
    requires WellFormed(t) && a < |t| && b < |t|
    ensures TreeOrder(t, b, a, invert) == -TreeOrder(t, a, b, invert)
    ensures TreeOrder(t, a, a, invert) == 0
  {
    var m := Min(t[a].depth, t[b].depth);
    if Anc(t, a, m) != Anc(t, b, m) {
      BranchSymmetric(t, a, b, m);
      var j := Branch(t, a, b, m);
      CaseCmpAntisymmetric(t[Anc(t, a, j)].item.file.path, t[Anc(t, b, j)].item.file.path);
    }
  }

  /** An ancestor sorts before its descendants, whichever way the sort goes. */
  lemma AncestorSortsFirst(t: seq<Row>, a: nat, b: nat, invert: bool)
    requires WellFormed(t) && a < |t| && b < |t|
    requires t[a].depth < t[b].depth && Anc(t, b, t[a].depth) == a
    ensures TreeOrder(t, a, b, invert) < 0 && TreeOrder(t, b, a, invert) > 0
    ensures TreeOrder(t, a, b, invert) == TreeOrder(t, a, b, !invert)
  {
  }

  /** Between rows not on one line of descent, inverting the sort reverses every comparison. */
  lemma InvertReverses(t: seq<Row>, a: nat, b: nat)
    requires WellFormed(t) && a < |t| && b < |t| && !OnOneLine(t, a, b)
    ensures TreeOrder(t, a, b, true) == -TreeOrder(t, a, b, false)
  {
  }

  /** The ancestors of two rows at their branch point are distinct rows with the same parent. */
  lemma BranchRowsAreSiblings(t: seq<Row>, a: nat, b: nat)
    requires WellFormed(t) && a < |t| && b < |t| && !OnOneLine(t, a, b)
    ensures var j := Branch(t, a, b, Min(t[a].depth, t[b].depth));
      Anc(t, a, j) != Anc(t, b, j) && t[Anc(t, a, j)].parent == t[Anc(t, b, j)].parent
  {
    var j := Branch(t, a, b, Min(t[a].depth, t[b].depth));
    AncParent(t, a, j);
    AncParent(t, b, j);
  }

  /** Given a branch point j of rows a and b, sort_tree compares their ancestors at j. */
  lemma TreeOrderAt(t: seq<Row>, a: nat, b: nat, invert: bool, j: nat)
    requires WellFormed(t) && a < |t| && b < |t|
    requires j <= t[a].depth && j <= t[b].depth && Anc(t, a, j) != Anc(t, b, j)
    requires j == 0 || Anc(t, a, j - 1) == Anc(t, b, j - 1)
    ensures !OnOneLine(t, a, b)
    ensures var c := CompareFiles(t[Anc(t, a, j)].item, t[Anc(t, b, j)].item);
      TreeOrder(t, a, b, invert) == if invert then -c else c
  {
    var m := Min(t[a].depth, t[b].depth);
    BranchUnique(t, a, b, m, j);
  }

  /**
   * Rows not on one line of descent compare as their ancestors at the branch
   * point do: two distinct rows under the same parent (or both top-level),
   * ordered by compare_files on their paths, reversed when inverted.
   */
  lemma OrderAtBranchPoint(t: seq<Row>, a: nat, b: nat, invert: bool)
    requires WellFormed(t) && a < |t| && b < |t| && !OnOneLine(t, a, b)
    ensures var j := Branch(t, a, b, Min(t[a].depth, t[b].depth));
      var x, y := Anc(t, a, j), Anc(t, b, j);
      var c := CompareFiles(t[x].item, t[y].item);
      && x != y && t[x].parent == t[y].parent
      && TreeOrder(t, a, b, invert) == if invert then -c else c
  {
    var j := Branch(t, a, b, Min(t[a].depth, t[b].depth));
    BranchRowsAreSiblings(t, a, b);
    TreeOrderAt(t, a, b, invert, j);
  }

  /**
   * A subtree stays together: every row c under x (or x itself) compares
   * with a row b outside x's line of descent exactly as x does.
   */
  lemma SubtreeStaysTogether(t: seq<Row>, x: nat, c: nat, b: nat, invert: bool)
    requires WellFormed(t) && x < |t| && c < |t| && b < |t|
    requires t[x].depth <= t[c].depth && Anc(t, c, t[x].depth) == x
    requires !OnOneLine(t, x, b)
    ensures !OnOneLine(t, c, b)
    ensures TreeOrder(t, c, b, invert) == TreeOrder(t, x, b, invert)
  {
    var j := Branch(t, x, b, Min(t[x].depth, t[b].depth));
    DescendantSharesAncestors(t, x, c, j);
    TreeOrderAt(t, x, b, invert, j);
    TreeOrderAt(t, c, b, invert, j);
  }

  /** A directory entry for the examples below. */
  function DirEntry(name: string, path: string): Entry
  {
    Entry(FileInfo(name, name, Directory), Location(path, true))
  }

  /**
   * The rows shown for a root directory holding "b", "A" and "c", where "A"
   * holds "x" and is expanded.
   */
  function Listing(): (t: seq<Row>)
    ensures |t| == 4 && WellFormed(t)
  {
    var t := [Row(DirEntry("A", "/r/A"), None, 0), Row(DirEntry("b", "/r/b"), None, 0),
              Row(DirEntry("c", "/r/c"), None, 0), Row(DirEntry("x", "/r/A/x"), Some(0), 1)];
    assert RowLinked(t, 0) && RowLinked(t, 1) && RowLinked(t, 2) && RowLinked(t, 3);
    t
  }

  /** Ascending, the rows sort /r/A, /r/A/x, /r/b, /r/c: the child follows its parent. */
  lemma ListingOrder()
    ensures var t := Listing();
      TreeOrder(t, 0, 3, false) < 0 && TreeOrder(t, 3, 1, false) < 0 && TreeOrder(t, 1, 2, false) < 0
  {
    var t := Listing();
    TreeOrderAt(t, 3, 1, false, 0);
    TreeOrderAt(t, 1, 2, false, 0);
  }

  /** Inverted, the top-level rows come in reverse while /r/A/x still follows /r/A: /r/c, /r/b, /r/A, /r/A/x. */
  lemma ListingOrderInverted()
    ensures var t := Listing();
      TreeOrder(t, 2, 1, true) < 0 && TreeOrder(t, 1, 0, true) < 0 && TreeOrder(t, 0, 3, true) < 0
  {
    var t := Listing();
    TreeOrderAt(t, 2, 1, true, 0);
    TreeOrderAt(t, 1, 0, true, 0);
  }

  /** Distinct rows under the same parent (or both top-level) show different paths, as in a real directory. */
  predicate SiblingsDistinct(t: seq<Row>)
  {
    forall i, j :: 0 <= i < |t| && 0 <= j < |t| && i != j && t[i].parent == t[j].parent ==>
      t[i].item.file.path != t[j].item.file.path
  }

  /**
   * Finding, as written: two sibling directories whose names differ only in
   * case ("F" and "f") tie, and so do "F/x" and "f", while "F" sorts before
   * "F/x". Ties are then not transitive, and an order that respects every
   * answer, F, f, F/x, puts "f" between "F" and its own child.
   */
  lemma CaseTieSplitsSubtree()
    ensures var t := [Row(DirEntry("F", "/F"), None, 0), Row(DirEntry("f", "/f"), None, 0),
                      Row(DirEntry("x", "/F/x"), Some(0), 1)];
      && WellFormed(t) && SiblingsDistinct(t)
      && TreeOrder(t, 0, 1, false) == 0 && TreeOrder(t, 1, 2, false) == 0 && TreeOrder(t, 0, 2, false) < 0
  {
    var t := [Row(DirEntry("F", "/F"), None, 0), Row(DirEntry("f", "/f"), None, 0),
              Row(DirEntry("x", "/F/x"), Some(0), 1)];
    assert RowLinked(t, 0) && RowLinked(t, 1) && RowLinked(t, 2);
    assert WellFormed(t);
    assert Fold("/F") == Fold("/f");
  }

  /** compare_files with the tie broken: case-insensitive first, then byte by byte. */
  function CompareFilesFixed(x: Entry, y: Entry): (r: int)
    ensures -1 <= r <= 1
    ensures r == 0 <==> x.file.path == y.file.path
    ensures CompareFiles(x, y) != 0 ==> r == CompareFiles(x, y)
  {
    var c := CaseCmp(x.file.path, y.file.path);
    if c != 0 then c else Cmp(x.file.path, y.file.path)
  }

  /** sort_tree with compare_files replaced by CompareFilesFixed. */
  function TreeOrderFixed(t: seq<Row>, a: nat, b: nat, invert: bool): (r: int)
    requires WellFormed(t) && a < |t| && b < |t|
    ensures OnOneLine(t, a, b) ==> (r == 0 <==> a == b)
    ensures !OnOneLine(t, a, b) ==> -1 <= r <= 1
  {
    var m := Min(t[a].depth, t[b].depth);
    if Anc(t, a, m) == Anc(t, b, m) then t[a].depth as int - t[b].depth as int
    else
      var j := Branch(t, a, b, m);
      var c := CompareFilesFixed(t[Anc(t, a, j)].item, t[Anc(t, b, j)].item);
      if invert then -c else c
  }

  /**
   * Finding, corrected: in a tree whose siblings have distinct paths the
   * comparator ties a row only with itself and stays antisymmetric, so no
   * row can sit tied between a directory and its children; it agrees with
   * sort_tree whenever sort_tree does not answer a tie.
   */
  lemma TreeOrderFixedStrict(t: seq<Row>, a: nat, b: nat, invert: bool)
    requires WellFormed(t) && SiblingsDistinct(t) && a < |t| && b < |t|
    ensures TreeOrderFixed(t, a, b, invert) == 0 <==> a == b
    ensures TreeOrderFixed(t, b, a, invert) == -TreeOrderFixed(t, a, b, invert)
    ensures TreeOrder(t, a, b, invert) != 0 ==> TreeOrderFixed(t, a, b, invert) == TreeOrder(t, a, b, invert)
  {
    if OnOneLine(t, a, b) {
      var m := Min(t[a].depth, t[b].depth);
      if t[a].depth == t[b].depth {
        assert Anc(t, a, m) == a && Anc(t, b, m) == b;
      }
    } else {
      FixedAtBranch(t, a, b, invert);
    }
  }

  /** TreeOrderFixedStrict for rows that are not on one line of descent. */
  lemma FixedAtBranch(t: seq<Row>, a: nat, b: nat, invert: bool)
    requires WellFormed(t) && SiblingsDistinct(t) && a < |t| && b < |t| && !OnOneLine(t, a, b)
    ensures a != b && TreeOrderFixed(t, a, b, invert) != 0
    ensures TreeOrderFixed(t, b, a, invert) == -TreeOrderFixed(t, a, b, invert)
    ensures TreeOrder(t, a, b, invert) != 0 ==> TreeOrderFixed(t, a, b, invert) == TreeOrder(t, a, b, invert)
  {
    var m := Min(t[a].depth, t[b].depth);
    BranchSymmetric(t, a, b, m);
    var j := Branch(t, a, b, m);
    var x, y := Anc(t, a, j), Anc(t, b, j);
    BranchRowsAreSiblings(t, a, b);
    var ex, ey := t[x].item, t[y].item;
    assert ex.file.path != ey.file.path;
    CaseCmpAntisymmetric(ex.file.path, ey.file.path);
    CmpAntisymmetric(ex.file.path, ey.file.path);
    var c := CompareFilesFixed(ex, ey);
    assert TreeOrderFixed(t, a, b, invert) == if invert then -c else c;
    assert TreeOrderFixed(t, b, a, invert) == if invert then c else -c;
    assert TreeOrder(t, a, b, invert) == if invert then -CompareFiles(ex, ey) else CompareFiles(ex, ey);
  }

  /** CompareFilesFixed is antisymmetric and orders entries transitively. */
  lemma CompareFilesFixedOrder(x: Entry, y: Entry, z: Entry)
    ensures CompareFilesFixed(y, x) == -CompareFilesFixed(x, y)
    ensures CompareFilesFixed(x, y) < 0 && CompareFilesFixed(y, z) < 0 ==> CompareFilesFixed(x, z) < 0
  {
    var px, py, pz := x.file.path, y.file.path, z.file.path;
    CaseCmpAntisymmetric(px, py);
    CmpAntisymmetric(px, py);
    if CompareFilesFixed(x, y) < 0 && CompareFilesFixed(y, z) < 0 {
      var fx, fy, fz := Fold(px), Fold(py), Fold(pz);
      if fx == fy && fy == fz {
        CmpTransitive(px, py, pz);
      } else {
        CaseCmpOrder(px, py);
        CaseCmpOrder(py, pz);
        CaseCmpOrder(px, pz);
        if fx != fy && fy != fz {
          LexLessTransitive(fx, fy, fz);
        }
      }
    }
  }

  /** Given a branch point j of rows a and b, the corrected sort compares their ancestors at j. */
  lemma TreeOrderFixedAt(t: seq<Row>, a: nat, b: nat, invert: bool, j: nat)
    requires WellFormed(t) && a < |t| && b < |t|
    requires j <= t[a].depth && j <= t[b].depth && Anc(t, a, j) != Anc(t, b, j)
    requires j == 0 || Anc(t, a, j - 1) == Anc(t, b, j - 1)
    ensures !OnOneLine(t, a, b)
    ensures var c := CompareFilesFixed(t[Anc(t, a, j)].item, t[Anc(t, b, j)].item);
      TreeOrderFixed(t, a, b, invert) == if invert then -c else c
  {
    var m := Min(t[a].depth, t[b].depth);
    BranchUnique(t, a, b, m, j);
  }

  /** Rows on one line of descent: the corrected sort puts a first exactly when a is an ancestor of b. */
  lemma FixedOnOneLine(t: seq<Row>, a: nat, b: nat, invert: bool)
    requires WellFormed(t) && a < |t| && b < |t| && OnOneLine(t, a, b)
    ensures TreeOrderFixed(t, a, b, invert) < 0 <==> t[a].depth < t[b].depth && Anc(t, b, t[a].depth) == a
  {
  }

  /** If a sorts before b and b before c, the branch points of (a, b) and (b, c) settle (a, c). */
  lemma FixedTransitiveAtBranches(t: seq<Row>, a: nat, b: nat, c: nat, invert: bool, i: nat, j: nat)
    requires WellFormed(t) && a < |t| && b < |t| && c < |t|
    requires i <= t[a].depth && i <= t[b].depth && Anc(t, a, i) != Anc(t, b, i)
    requires i == 0 || Anc(t, a, i - 1) == Anc(t, b, i - 1)
    requires j <= t[b].depth && j <= t[c].depth && Anc(t, b, j) != Anc(t, c, j)
    requires j == 0 || Anc(t, b, j - 1) == Anc(t, c, j - 1)
    requires TreeOrderFixed(t, a, b, invert) < 0 && TreeOrderFixed(t, b, c, invert) < 0
    ensures TreeOrderFixed(t, a, c, invert) < 0
  {
    if i < j {
      FixedBranchOfFirstPair(t, a, b, c, invert, i, j);
    } else if j < i {
      FixedBranchOfSecondPair(t, a, b, c, invert, i, j);
    } else {
      FixedBranchOfBothPairs(t, a, b, c, invert, i);
    }
  }

  /** When (a, b) branch above (b, c), a and c branch where a and b do, between the same rows. */
  lemma FixedBranchOfFirstPair(t: seq<Row>, a: nat, b: nat, c: nat, invert: bool, i: nat, j: nat)
    requires WellFormed(t) && a < |t| && b < |t| && c < |t|
    requires i <= t[a].depth && i <= t[b].depth && Anc(t, a, i) != Anc(t, b, i)
    requires i == 0 || Anc(t, a, i - 1) == Anc(t, b, i - 1)
    requires i < j <= t[b].depth && j <= t[c].depth && Anc(t, b, j - 1) == Anc(t, c, j - 1)
    ensures TreeOrderFixed(t, a, c, invert) == TreeOrderFixed(t, a, b, invert)
  {
    AgreeAtAndAbove(t, b, c, i, j);
    TreeOrderFixedAt(t, a, b, invert, i);
    TreeOrderFixedAt(t, a, c, invert, i);
  }

  /** When (b, c) branch above (a, b), a and c branch where b and c do, between the same rows. */
  lemma FixedBranchOfSecondPair(t: seq<Row>, a: nat, b: nat, c: nat, invert: bool, i: nat, j: nat)
    requires WellFormed(t) && a < |t| && b < |t| && c < |t|
    requires j < i <= t[a].depth && i <= t[b].depth && Anc(t, a, i - 1) == Anc(t, b, i - 1)
    requires j <= t[c].depth && Anc(t, b, j) != Anc(t, c, j)
    requires j == 0 || Anc(t, b, j - 1) == Anc(t, c, j - 1)
    ensures TreeOrderFixed(t, a, c, invert) == TreeOrderFixed(t, b, c, invert)
  {
    AgreeAtAndAbove(t, a, b, j, i);
    TreeOrderFixedAt(t, b, c, invert, j);
    TreeOrderFixedAt(t, a, c, invert, j);
  }

  /** When (a, b) and (b, c) branch at the same depth, three siblings decide, and CompareFilesFixed is transitive. */
  lemma FixedBranchOfBothPairs(t: seq<Row>, a: nat, b: nat, c: nat, invert: bool, i: nat)
    requires WellFormed(t) && a < |t| && b < |t| && c < |t|
    requires i <= t[a].depth && i <= t[b].depth && i <= t[c].depth
    requires Anc(t, a, i) != Anc(t, b, i) && Anc(t, b, i) != Anc(t, c, i)
    requires i == 0 || (Anc(t, a, i - 1) == Anc(t, b, i - 1) && Anc(t, b, i - 1) == Anc(t, c, i - 1))
    requires TreeOrderFixed(t, a, b, invert) < 0 && TreeOrderFixed(t, b, c, invert) < 0
    ensures TreeOrderFixed(t, a, c, invert) < 0
  {
    var x, y, z := t[Anc(t, a, i)].item, t[Anc(t, b, i)].item, t[Anc(t, c, i)].item;
    TreeOrderFixedAt(t, a, b, invert, i);
    TreeOrderFixedAt(t, b, c, invert, i);
    CompareFilesFixedOrder(x, y, z);
    CompareFilesFixedOrder(z, y, x);
    CompareFilesFixedOrder(x, z, y);
    if Anc(t, a, i) == Anc(t, c, i) {
      assert false;
    }
    TreeOrderFixedAt(t, a, c, invert, i);
  }

  /** If a sorts before b, an ancestor of c, then a sorts before c. */
  lemma FixedTransitiveThroughAncestor(t: seq<Row>, a: nat, b: nat, c: nat, invert: bool, i: nat)
    requires WellFormed(t) && a < |t| && b < |t| && c < |t|
    requires i <= t[a].depth && i <= t[b].depth && Anc(t, a, i) != Anc(t, b, i)
    requires i == 0 || Anc(t, a, i - 1) == Anc(t, b, i - 1)
    requires t[b].depth < t[c].depth && Anc(t, c, t[b].depth) == b
    requires TreeOrderFixed(t, a, b, invert) < 0
    ensures TreeOrderFixed(t, a, c, invert) < 0
  {
    TreeOrderFixedAt(t, a, b, invert, i);
    DescendantSharesAncestors(t, b, c, i);
    TreeOrderFixedAt(t, a, c, invert, i);
  }

  /** If a is an ancestor of b and b sorts before c, then a sorts before c. */
  lemma FixedTransitiveFromAncestor(t: seq<Row>, a: nat, b: nat, c: nat, invert: bool, j: nat)
    requires WellFormed(t) && a < |t| && b < |t| && c < |t|
    requires t[a].depth < t[b].depth && Anc(t, b, t[a].depth) == a
    requires j <= t[b].depth && j <= t[c].depth && Anc(t, b, j) != Anc(t, c, j)
    requires j == 0 || Anc(t, b, j - 1) == Anc(t, c, j - 1)
    requires TreeOrderFixed(t, b, c, invert) < 0
    ensures TreeOrderFixed(t, a, c, invert) < 0
  {
    var da := t[a].depth;
    TreeOrderFixedAt(t, b, c, invert, j);
    if j <= da {
      DescendantSharesAncestors(t, a, b, j);
      TreeOrderFixedAt(t, a, c, invert, j);
    } else {
      AncestorAboveBranch(t, a, b, c, j);
      FixedOnOneLine(t, a, c, invert);
    }
  }

  /**
   * Finding, corrected: the corrected comparator is transitive, so together
   * with TreeOrderFixedStrict it is a strict total order on the rows of a
   * tree whose siblings have distinct paths.
   */
  lemma TreeOrderFixedTransitive(t: seq<Row>, a: nat, b: nat, c: nat, invert: bool)
    requires WellFormed(t) && a < |t| && b < |t| && c < |t|
    requires TreeOrderFixed(t, a, b, invert) < 0 && TreeOrderFixed(t, b, c, invert) < 0
    ensures TreeOrderFixed(t, a, c, invert) < 0
  {
    if OnOneLine(t, a, b) {
      FixedOnOneLine(t, a, b, invert);
      FixedTransitiveFromAncestorAny(t, a, b, c, invert);
    } else {
      FixedTransitiveFromBranch(t, a, b, c, invert);
    }
  }

  /** The branch point of two rows not on one line of descent, with the properties that characterise it. */
  lemma BranchPoint(t: seq<Row>, a: nat, b: nat) returns (j: nat)
    requires WellFormed(t) && a < |t| && b < |t| && !OnOneLine(t, a, b)
    ensures j == Branch(t, a, b, Min(t[a].depth, t[b].depth))
    ensures j <= t[a].depth && j <= t[b].depth && Anc(t, a, j) != Anc(t, b, j)
    ensures j == 0 || Anc(t, a, j - 1) == Anc(t, b, j - 1)
  {
    var m := Min(t[a].depth, t[b].depth);
    j := Branch(t, a, b, m);
  }

  /** An ancestor of b above the depth where b and c part is an ancestor of c too. */
  lemma AncestorAboveBranch(t: seq<Row>, a: nat, b: nat, c: nat, j: nat)
    requires WellFormed(t) && a < |t| && b < |t| && c < |t|
    requires t[a].depth < t[b].depth && Anc(t, b, t[a].depth) == a
    requires t[a].depth < j <= t[b].depth && j <= t[c].depth && Anc(t, b, j - 1) == Anc(t, c, j - 1)
    ensures t[a].depth < t[c].depth && Anc(t, c, t[a].depth) == a && OnOneLine(t, a, c)
  {
    var da := t[a].depth;
    AncOfAnc(t, b, j - 1, da);
    AncOfAnc(t, c, j - 1, da);
    assert Anc(t, a, da) == a;
  }

  /** An ancestor of an ancestor of c is an ancestor of c. */
  lemma AncestorOfAncestor(t: seq<Row>, a: nat, b: nat, c: nat)
    requires WellFormed(t) && a < |t| && b < |t| && c < |t|
    requires t[a].depth < t[b].depth && Anc(t, b, t[a].depth) == a
    requires t[b].depth < t[c].depth && Anc(t, c, t[b].depth) == b
    ensures t[a].depth < t[c].depth && Anc(t, c, t[a].depth) == a && OnOneLine(t, a, c)
  {
    AncOfAnc(t, c, t[b].depth, t[a].depth);
    assert Anc(t, a, t[a].depth) == a;
  }

  /** TreeOrderFixedTransitive when a is an ancestor of b. */
  lemma FixedTransitiveFromAncestorAny(t: seq<Row>, a: nat, b: nat, c: nat, invert: bool)
    requires WellFormed(t) && a < |t| && b < |t| && c < |t|
    requires t[a].depth < t[b].depth && Anc(t, b, t[a].depth) == a
    requires TreeOrderFixed(t, b, c, invert) < 0
    ensures TreeOrderFixed(t, a, c, invert) < 0
  {
    var da, db := t[a].depth, t[b].depth;
    if OnOneLine(t, b, c) {
      FixedOnOneLine(t, b, c, invert);
      AncestorOfAncestor(t, a, b, c);
      FixedOnOneLine(t, a, c, invert);
    } else {
      var j := BranchPoint(t, b, c);
      FixedTransitiveFromAncestor(t, a, b, c, invert, j);
    }
  }

  /** TreeOrderFixedTransitive when a and b are not on one line of descent. */
  lemma FixedTransitiveFromBranch(t: seq<Row>, a: nat, b: nat, c: nat, invert: bool)
    requires WellFormed(t) && a < |t| && b < |t| && c < |t| && !OnOneLine(t, a, b)
    requires TreeOrderFixed(t, a, b, invert) < 0 && TreeOrderFixed(t, b, c, invert) < 0
    ensures TreeOrderFixed(t, a, c, invert) < 0
  {
    var i := BranchPoint(t, a, b);
    if OnOneLine(t, b, c) {
      FixedOnOneLine(t, b, c, invert);
      FixedTransitiveThroughAncestor(t, a, b, c, invert, i);
    } else {
      var j := BranchPoint(t, b, c);
      FixedTransitiveAtBranches(t, a, b, c, invert, i, j);
    }
  }

  /**
   * Finding, corrected: under the corrected comparator too, every row c
   * under x (or x itself) compares with a row b outside x's line of descent
   * exactly as x does, so with a strict total order no outside row can sit
   * between a directory and its children.
   */
  lemma SubtreeStaysTogetherFixed(t: seq<Row>, x: nat, c: nat, b: nat, invert: bool)
    requires WellFormed(t) && x < |t| && c < |t| && b < |t|
    requires t[x].depth <= t[c].depth && Anc(t, c, t[x].depth) == x
    requires !OnOneLine(t, x, b)
    ensures !OnOneLine(t, c, b)
    ensures TreeOrderFixed(t, c, b, invert) == TreeOrderFixed(t, x, b, invert)
  {
    var j := BranchPoint(t, x, b);
    DescendantSharesAncestors(t, x, c, j);
    TreeOrderFixedAt(t, x, b, invert, j);
    TreeOrderFixedAt(t, c, b, invert, j);
  }

  /** The sort direction: the global invert_sort, false at start-up. */
  class SortOrder {
    var invert: bool

    constructor ()
      ensures !invert
    {
      invert := false;
    }

    /** toggle_sort (testlistview.c:340-348), without the button icon and the re-sort request. */
    method ToggleSort()
      modifies this
      ensures invert == !old(invert)
    {
      invert := !invert;
    }

    /**
     * sort_tree (testlistview.c:350-407): walk the deeper row up to the
     * other's depth; if they meet, answer the depth difference; otherwise
     * walk both up until their parents coincide and compare those two rows'
     * files, negated when the sort is inverted.
     */
    method SortTree(t: seq<Row>, a: nat, b: nat) returns (cmp: int)
      requires WellFormed(t) && a < |t| && b < |t|
      ensures cmp == TreeOrder(t, a, b, invert)
    {
      var ra, rb := a, b;
      var da, db := t[a].depth, t[b].depth;
      if da > db {
        var i := 0;
        while i < da - db
          invariant 0 <= i <= da - db
          invariant ra == Anc(t, a, da - i)
        {
          AncParent(t, a, da - i);
          ra := t[ra].parent.value;
          i := i + 1;
        }
      }
      if db > da {
        var i := 0;
        while i < db - da
          invariant 0 <= i <= db - da
          invariant rb == Anc(t, b, db - i)
        {
          AncParent(t, b, db - i);
          rb := t[rb].parent.value;
          i := i + 1;
        }
      }
      ghost var m := Min(da, db);
      assert ra == Anc(t, a, m) && rb == Anc(t, b, m);

      if ra == rb {
        return da as int - db as int;
      }

      // The do-while's first round: ra and rb stay, pa and pb become their parents.
      var pa, pb := t[ra].parent, t[rb].parent;
      ghost var k := m;
      while pa != pb
        invariant k <= m && ra == Anc(t, a, k) && rb == Anc(t, b, k) && ra != rb
        invariant pa == t[ra].parent && pb == t[rb].parent
        decreases k
      {
        AncParent(t, a, k);
        AncParent(t, b, k);
        ra, rb := pa.value, pb.value;
        pa, pb := t[ra].parent, t[rb].parent;
        k := k - 1;
      }
      AncParent(t, a, k);
      AncParent(t, b, k);
      BranchUnique(t, a, b, m, k);

      cmp := CompareFiles(t[ra].item, t[rb].item);
      if invert {
        cmp := -cmp;
      }
    }
  }
}
