/** The cache-blocked matrix transposes of trans.c, over two-dimensional arrays written in place. */
module Trans {
  import opened Basics

  const BLOCK_SIZE := 8

  /** A C local: it holds garbage until it is assigned. */
  datatype Flag = Garbage | Assigned(value: bool)

  /** Rows r0..r1 and columns c0..c1 of B hold the transpose of A. */
  ghost predicate Transposed(A: array2<int>, B: array2<int>, r0: int, r1: int, c0: int, c1: int)
    requires 0 <= r0 && r1 <= B.Length0 == A.Length1 && 0 <= c0 && c1 <= B.Length1 == A.Length0
    reads A, B
  {
    forall r, c {:trigger B[r, c]} :: r0 <= r < r1 && c0 <= c < c1 ==> B[r, c] == A[c, r]
  }

  ghost predicate IsTransposeOf(A: array2<int>, B: array2<int>)
    requires B.Length0 == A.Length1 && B.Length1 == A.Length0
    reads A, B
  {
    Transposed(A, B, 0, B.Length0, 0, B.Length1)
  }

  /** Nothing was written outside rows r0..r1, columns c0..c1. */
  twostate predicate KeptOutside(B: array2<int>, r0: int, r1: int, c0: int, c1: int)
    reads B
  {
    forall r, c {:trigger B[r, c]} :: 0 <= r < B.Length0 && 0 <= c < B.Length1 && !(r0 <= r < r1 && c0 <= c < c1) ==>
      B[r, c] == old(B[r, c])
  }

  ghost predicate Shapes(M: nat, N: nat, A: array2<int>, B: array2<int>) {
    A != B && A.Length0 == N && A.Length1 == M && B.Length0 == M && B.Length1 == N
  }

  /** The row-wise scan. */
  method Scan(M: nat, N: nat, A: array2<int>, B: array2<int>)
    requires Shapes(M, N, A, B)
    modifies B
    ensures IsTransposeOf(A, B)
  {
    for i := 0 to N
      invariant Transposed(A, B, 0, M, 0, i)
    {
      for j := 0 to M
        invariant Transposed(A, B, 0, M, 0, i) && Transposed(A, B, 0, j, i, i + 1)
      {
        var tmp := A[i, j];
        B[j, i] := tmp;
      }
    }
  }

  /** Square blocks either sit on the diagonal or miss it. */
  predicate Apart(k: int, l: int, size: int) { k == l || k + size <= l || l + size <= k }

  /** The inner loops over one square block: A[k][l] goes to B[l][k] except on the diagonal, whose
      element waits in tmp until its row is done. */
  method CopyBlock(A: array2<int>, B: array2<int>, k0: nat, l0: nat, size: nat, flag: Flag, tmp0: int)
    returns (isDiagonal: Flag, tmp: int)
    requires Shapes(A.Length1, A.Length0, A, B) && k0 + size <= A.Length0 && l0 + size <= A.Length1
    requires size > 0 && Apart(k0, l0, size) && (flag == Assigned(false) || k0 == l0)
    modifies B
    ensures Transposed(A, B, l0, l0 + size, k0, k0 + size) && KeptOutside(B, l0, l0 + size, k0, k0 + size)
    ensures isDiagonal == Assigned(false)
  {
    isDiagonal, tmp := flag, tmp0;
    var k := k0;
    while k < k0 + size
      invariant k0 <= k <= k0 + size
      invariant Transposed(A, B, l0, l0 + size, k0, k) && KeptOutside(B, l0, l0 + size, k0, k)
      invariant isDiagonal == if k == k0 then flag else Assigned(false)
    {
      var l := l0;
      while l < l0 + size
        invariant l0 <= l <= l0 + size
        invariant Transposed(A, B, l0, l0 + size, k0, k) && KeptOutside(B, l0, l0 + size, k0, k + 1)
        invariant forall r {:trigger B[r, k]} :: l0 <= r < l && r != k ==> B[r, k] == A[k, r]
        invariant if l0 <= k < l then isDiagonal == Assigned(true) && tmp == A[k, k]
                  else isDiagonal == if k == k0 then flag else Assigned(false)
      {
        if k != l {
          B[l, k] := A[k, l];
        } else {
          isDiagonal := Assigned(true);
          tmp := A[k, l];
        }
        l := l + 1;
      }
      assert isDiagonal.Assigned?;
      if isDiagonal.value {
        B[k, k] := tmp;
        isDiagonal := Assigned(false);
      }
      k := k + 1;
    }
  }

  /** 8 by 8 blocks with a delayed diagonal. */
  method Trans32x32(M: nat, N: nat, A: array2<int>, B: array2<int>)
    requires Shapes(M, N, A, B) && M % BLOCK_SIZE == 0 && N % BLOCK_SIZE == 0
    modifies B
    ensures IsTransposeOf(A, B)
  {
    var isDiagonal, tmp := Garbage, 0;
    var i := 0;
    while i < N
      invariant 0 <= i <= N && i % BLOCK_SIZE == 0
      invariant Transposed(A, B, 0, M, 0, i)
      invariant M > 0 ==> isDiagonal == if i == 0 then Garbage else Assigned(false)
    {
      var j := 0;
      while j < M
        invariant 0 <= j <= M && j % BLOCK_SIZE == 0
        invariant Transposed(A, B, 0, M, 0, i) && Transposed(A, B, 0, j, i, i + BLOCK_SIZE)
        invariant M > 0 ==> isDiagonal == if i == 0 && j == 0 then Garbage else Assigned(false)
      {
        isDiagonal, tmp := CopyBlock(A, B, i, j, BLOCK_SIZE, isDiagonal, tmp);
        j := j + BLOCK_SIZE;
      }
      i := i + BLOCK_SIZE;
    }
  }

  /** The top right quadrant of A is parked, transposed, in the top right quadrant of B. */
  ghost predicate Parked(A: array2<int>, B: array2<int>, i: nat, j: nat, l: int)
    requires Shapes(A.Length1, A.Length0, A, B) && i + BLOCK_SIZE <= A.Length0 && j + BLOCK_SIZE <= A.Length1
    reads A, B
  {
    forall r, c {:trigger B[r, c]} :: j <= l <= r < j + 4 && i + 4 <= c < i + 8 ==> B[r, c] == A[c - 4, r + 4]
  }

  method Park(A: array2<int>, B: array2<int>, i: nat, j: nat)
    requires Shapes(A.Length1, A.Length0, A, B) && i + BLOCK_SIZE <= A.Length0 && j + BLOCK_SIZE <= A.Length1
    modifies B
    ensures Parked(A, B, i, j, j) && KeptOutside(B, j, j + 4, i + 4, i + 8)
  {
    var k := i;
    while k < i + BLOCK_SIZE / 2
      invariant i <= k <= i + 4 && KeptOutside(B, j, j + 4, i + 4, k + 4)
      invariant forall r, c {:trigger B[r, c]} :: j <= r < j + 4 && i + 4 <= c < k + 4 ==> B[r, c] == A[c - 4, r + 4]
    {
      var tmp4 := A[k, j + BLOCK_SIZE / 2];
      var tmp5 := A[k, j + BLOCK_SIZE / 2 + 1];
      var tmp6 := A[k, j + BLOCK_SIZE / 2 + 2];
      var tmp7 := A[k, j + BLOCK_SIZE / 2 + 3];
      B[j, k + BLOCK_SIZE / 2] := tmp4;
      B[j + 1, k + BLOCK_SIZE / 2] := tmp5;
      B[j + 2, k + BLOCK_SIZE / 2] := tmp6;
      B[j + 3, k + BLOCK_SIZE / 2] := tmp7;
      k := k + 1;
    }
  }

  /** Four neighbouring cells of a row. */
  method WriteRow(B: array2<int>, r: nat, c: nat, x0: int, x1: int, x2: int, x3: int)
    requires r < B.Length0 && c + 4 <= B.Length1
    modifies B
    ensures B[r, c] == x0 && B[r, c + 1] == x1 && B[r, c + 2] == x2 && B[r, c + 3] == x3
    ensures KeptOutside(B, r, r + 1, c, c + 4)
  {
    B[r, c] := x0;
    B[r, c + 1] := x1;
    B[r, c + 2] := x2;
    B[r, c + 3] := x3;
  }

  /** Each parked row moves to the bottom left before the column of A that belongs there overwrites it. */
  method Unpark(A: array2<int>, B: array2<int>, i: nat, j: nat)
    requires Shapes(A.Length1, A.Length0, A, B) && i + BLOCK_SIZE <= A.Length0 && j + BLOCK_SIZE <= A.Length1
    requires Parked(A, B, i, j, j)
    modifies B
    ensures Transposed(A, B, j, j + 4, i + 4, i + 8) && Transposed(A, B, j + 4, j + 8, i, i + 4)
    ensures KeptOutside2(B, j, j + 4, i + 4, i + 8, j + 4, j + 8, i, i + 4)
  {
    var l := j;
    while l < j + BLOCK_SIZE / 2
      invariant j <= l <= j + 4 && Parked(A, B, i, j, l)
      invariant Transposed(A, B, j, l, i + 4, i + 8) && Transposed(A, B, j + 4, l + 4, i, i + 4)
      invariant KeptOutside2(B, j, l, i + 4, i + 8, j + 4, l + 4, i, i + 4)
    {
      var tmp0 := B[l, i + BLOCK_SIZE / 2];
      var tmp1 := B[l, i + BLOCK_SIZE / 2 + 1];
      var tmp2 := B[l, i + BLOCK_SIZE / 2 + 2];
      var tmp3 := B[l, i + BLOCK_SIZE / 2 + 3];
      var tmp4 := A[i + BLOCK_SIZE / 2, l];
      var tmp5 := A[i + BLOCK_SIZE / 2 + 1, l];
      var tmp6 := A[i + BLOCK_SIZE / 2 + 2, l];
      var tmp7 := A[i + BLOCK_SIZE / 2 + 3, l];
      WriteRow(B, l, i + BLOCK_SIZE / 2, tmp4, tmp5, tmp6, tmp7);
      WriteRow(B, l + BLOCK_SIZE / 2, i, tmp0, tmp1, tmp2, tmp3);
      l := l + 1;
    }
  }

  /** Nothing was written outside two rectangles. */
  twostate predicate KeptOutside2(B: array2<int>, r0: int, r1: int, c0: int, c1: int, q0: int, q1: int, d0: int,
    d1: int)
    reads B
  {
    forall r, c {:trigger B[r, c]} ::
      0 <= r < B.Length0 && 0 <= c < B.Length1 && !(r0 <= r < r1 && c0 <= c < c1) && !(q0 <= r < q1 && d0 <= c < d1) ==>
        B[r, c] == old(B[r, c])
  }

  /** One 8 by 8 block, quadrant by quadrant. */
  method FourQuadrants(A: array2<int>, B: array2<int>, i: nat, j: nat, flag: Flag, tmp0: int)
    returns (isDiagonal: Flag, tmp: int)
    requires Shapes(A.Length1, A.Length0, A, B) && i + BLOCK_SIZE <= A.Length0 && j + BLOCK_SIZE <= A.Length1
    requires Apart(i, j, BLOCK_SIZE) && (flag == Assigned(false) || i == j)
    modifies B
    ensures Transposed(A, B, j, j + 8, i, i + 8) && KeptOutside(B, j, j + 8, i, i + 8)
    ensures isDiagonal == Assigned(false)
  {
    isDiagonal, tmp := CopyBlock(A, B, i, j, BLOCK_SIZE / 2, flag, tmp0);
    Park(A, B, i, j);
    Unpark(A, B, i, j);
    isDiagonal, tmp := CopyBlock(A, B, i + BLOCK_SIZE / 2, j + BLOCK_SIZE / 2, BLOCK_SIZE / 2, isDiagonal, tmp);
  }

  method Trans64x64(M: nat, N: nat, A: array2<int>, B: array2<int>)
    requires Shapes(M, N, A, B) && M == N && M % BLOCK_SIZE == 0
    modifies B
    ensures IsTransposeOf(A, B)
  {
    var isDiagonal, tmp := Garbage, 0;
    var i := 0;
    while i < M
      invariant 0 <= i <= M && i % BLOCK_SIZE == 0
      invariant Transposed(A, B, 0, N, 0, i)
      invariant isDiagonal == if i == 0 then Garbage else Assigned(false)
    {
      var j := 0;
      while j < N
        invariant 0 <= j <= N && j % BLOCK_SIZE == 0
        invariant Transposed(A, B, 0, N, 0, i) && Transposed(A, B, 0, j, i, i + BLOCK_SIZE)
        invariant isDiagonal == if i == 0 && j == 0 then Garbage else Assigned(false)
      {
        isDiagonal, tmp := FourQuadrants(A, B, i, j, isDiagonal, tmp);
        j := j + BLOCK_SIZE;
      }
      i := i + BLOCK_SIZE;
    }
  }

  /** The dispatch on the width; every other width is left alone. */
  method TransposeSubmit(M: nat, N: nat, A: array2<int>, B: array2<int>)
    requires Shapes(M, N, A, B) && (M == 32 ==> N % BLOCK_SIZE == 0) && (M == 64 ==> N == 64)
    modifies B
    ensures if M == 32 || M == 64 || M == 61 then IsTransposeOf(A, B) else KeptOutside(B, 0, 0, 0, 0)
  {
    if M == 32 {
      Trans32x32(M, N, A, B);
    } else if M == 64 {
      Trans64x64(M, N, A, B);
    } else if M == 61 {
      Trans61x67(M, N, A, B);
    }
  }

  /** Ragged blocks at the edges. */
  method Trans61x67(M: nat, N: nat, A: array2<int>, B: array2<int>)
    requires Shapes(M, N, A, B)
    modifies B
    ensures IsTransposeOf(A, B)
  {
    var i := 0;
    while i < N
      invariant 0 <= i && Transposed(A, B, 0, M, 0, Min(i, N))
    {
      var j := 0;
      while j < M
        invariant 0 <= j && Transposed(A, B, 0, M, 0, i)
        invariant Transposed(A, B, 0, Min(j, M), i, Min(i + BLOCK_SIZE, N))
      {
        var k := j;
        while k < Min(j + BLOCK_SIZE, M)
          invariant j <= k <= Min(j + BLOCK_SIZE, M) && Transposed(A, B, 0, M, 0, i)
          invariant Transposed(A, B, 0, k, i, Min(i + BLOCK_SIZE, N))
        {
          var l := i;
          while l < Min(i + BLOCK_SIZE, N)
            invariant i <= l <= Min(i + BLOCK_SIZE, N) && Transposed(A, B, 0, M, 0, i)
            invariant Transposed(A, B, 0, k, i, Min(i + BLOCK_SIZE, N)) && Transposed(A, B, k, k + 1, i, l)
          {
            B[k, l] := A[l, k];
            l := l + 1;
          }
          k := k + 1;
        }
        j := j + BLOCK_SIZE;
      }
      i := i + BLOCK_SIZE;
    }
  }

  /** is_transpose decides exactly that. */
  method IsTranspose(M: nat, N: nat, A: array2<int>, B: array2<int>) returns (ok: bool)
    requires Shapes(M, N, A, B)
    ensures ok <==> IsTransposeOf(A, B)
  {
    for i := 0 to N
      invariant Transposed(A, B, 0, M, 0, i)
    {
      for j := 0 to M
        invariant Transposed(A, B, 0, M, 0, i) && Transposed(A, B, 0, j, i, i + 1)
      {
        if A[i, j] != B[j, i] { return false; }
      }
    }
    return true;
  }
}
