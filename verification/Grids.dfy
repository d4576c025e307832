/** Matrices as sequences of rows, and the operations on sequences that rearrange them. */
module Grids {
  import opened Integers

  /** `rows` rows of `cols` entries. */
  predicate Grid<T>(m: seq<seq<T>>, rows: int, cols: int) {
    |m| == rows && forall r :: 0 <= r < rows ==> |m[r]| == cols
  }

  lemma SameGrid<T>(m: seq<seq<T>>, n: seq<seq<T>>, rows: int, cols: int)
    requires Grid(m, rows, cols) && Grid(n, rows, cols)
    requires forall r, c :: 0 <= r < rows && 0 <= c < cols ==> m[r][c] == n[r][c]
    ensures m == n
  {
    forall r | 0 <= r < rows ensures m[r] == n[r] {
      forall c | 0 <= c < cols ensures m[r][c] == n[r][c] {
      }
    }
  }

  function Map<A, B>(f: A -> B, s: seq<A>): seq<B> {
    seq(|s|, i requires 0 <= i < |s| => f(s[i]))
  }

  function Zip<A, B, C>(f: (A, B) -> C, s: seq<A>, t: seq<B>): seq<C> {
    seq(Min(|s|, |t|), i requires 0 <= i < Min(|s|, |t|) => f(s[i], t[i]))
  }

  /** n entries from `from` on. */
  function Slice<A>(s: seq<A>, from: nat, n: nat): seq<A> {
    if from + n <= |s| then s[from..from + n] else []
  }

  function Drop<A>(s: seq<A>, k: nat): seq<A> {
    if k <= |s| then s[k..] else []
  }

  function Reversed<A>(s: seq<A>): (r: seq<A>)
    ensures |r| == |s| && forall i :: 0 <= i < |s| ==> r[i] == s[|s| - 1 - i]
  {
    if s == [] then [] else [s[|s| - 1]] + Reversed(s[..|s| - 1])
  }

  /** n copies, one after another. */
  function Copies<A>(s: seq<A>, n: nat): seq<A> {
    if n == 0 then [] else Copies(s, n - 1) + s
  }

  lemma {:induction false} CopiesLength<A>(s: seq<A>, n: nat)
    ensures |Copies(s, n)| == |s| * n
  {
    if n > 0 {
      CopiesLength(s, n - 1);
      assert |s| * n == |s| * (n - 1) + |s|;
    }
  }

  lemma {:induction false} CopiesAt<A>(s: seq<A>, n: nat, i: int)
    requires 0 <= i < |s| * n
    ensures |s| > 0 && |Copies(s, n)| == |s| * n && Copies(s, n)[i] == s[i % |s|]
  {
    CopiesLength(s, n);
    CopiesLength(s, n - 1);
    assert |s| * n == |s| * (n - 1) + |s|;
    if i < |s| * (n - 1) {
      CopiesAt(s, n - 1, i);
    } else {
      ModUnique(i, |s|, n - 1, i - |s| * (n - 1));
    }
  }

  function Column<T>(m: seq<seq<T>>, c: nat): seq<T>
    requires forall r :: 0 <= r < |m| ==> c < |m[r]|
  {
    seq(|m|, r requires 0 <= r < |m| => m[r][c])
  }

  /** The columns as rows. */
  function Transposed<T>(m: seq<seq<T>>, cols: nat): seq<seq<T>>
    requires Grid(m, |m|, cols)
  {
    seq(cols, c requires 0 <= c < cols => Column(m, c))
  }

  /** The entries on the diagonal from the corner. */
  function MainDiagonal<T>(m: seq<seq<T>>): seq<T>
    decreases |m|
  {
    if m == [] || m[0] == [] then [] else [m[0][0]] + MainDiagonal(Tails(m[1..]))
  }

  /** Every row without its first entry. */
  function Tails<T>(m: seq<seq<T>>): (t: seq<seq<T>>)
    ensures |t| == |m|
  {
    Map((row: seq<T>) => if row == [] then [] else row[1..], m)
  }

  lemma {:induction false} MainDiagonalAt<T>(m: seq<seq<T>>, rows: int, cols: int)
    requires Grid(m, rows, cols) && rows >= 0 && cols >= 0
    ensures |MainDiagonal(m)| == Min(rows, cols)
    ensures forall i :: 0 <= i < Min(rows, cols) ==> MainDiagonal(m)[i] == m[i][i]
    decreases |m|
  {
    if m != [] && m[0] != [] {
      var t := Tails(m[1..]);
      MainDiagonalAt(t, rows - 1, cols - 1);
      forall i | 0 < i < Min(rows, cols) ensures MainDiagonal(m)[i] == m[i][i] {
        var k := i - 1;
        assert MainDiagonal(t)[k] == t[k][k] == m[1..][k][1..][k];
      }
    }
  }

  /** Without the first d columns, or without the first -d rows. */
  function Corner<T>(m: seq<seq<T>>, d: int): seq<seq<T>> {
    if d >= 0 then Map((row: seq<T>) => Drop(row, d), m) else Drop(m, -d)
  }

  lemma CornerAt<T>(m: seq<seq<T>>, rows: int, cols: int, d: int)
    requires Grid(m, rows, cols) && -rows <= d <= cols
    ensures var below, right := Max(-d, 0), Max(d, 0);
            && Grid(Corner(m, d), rows - below, cols - right)
            && forall r, c :: 0 <= r < rows - below && 0 <= c < cols - right ==> Corner(m, d)[r][c] == m[r + below][c + right]
  {
  }

  /** The rows one after another. */
  function Flatten<T>(m: seq<seq<T>>): seq<T> {
    if m == [] then [] else Flatten(m[..|m| - 1]) + m[|m| - 1]
  }

  lemma {:induction false} FlattenLength<T>(m: seq<seq<T>>, rows: int, cols: nat)
    requires Grid(m, rows, cols)
    ensures |Flatten(m)| == rows * cols
    decreases |m|
  {
    if m != [] {
      FlattenLength(m[..rows - 1], rows - 1, cols);
      assert rows * cols == (rows - 1) * cols + cols;
    }
  }

  lemma {:induction false} FlattenAt<T>(m: seq<seq<T>>, rows: int, cols: nat, r: int, c: int)
    requires Grid(m, rows, cols) && 0 <= r < rows && 0 <= c < cols
    ensures 0 <= r * cols + c < |Flatten(m)| && Flatten(m)[r * cols + c] == m[r][c]
    decreases |m|
  {
    FlattenLength(m, rows, cols);
    FlattenLength(m[..rows - 1], rows - 1, cols);
    if r < rows - 1 {
      FlattenAt(m[..rows - 1], rows - 1, cols, r, c);
    } else {
      assert rows * cols == (rows - 1) * cols + cols;
    }
  }
}
