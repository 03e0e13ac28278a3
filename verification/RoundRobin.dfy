/** A cursor of fixed width stepping through positions: when a round of steps visits each position once. */
module RoundRobin {

  /** The cursor after `k` steps of a counter that wraps at `size`. */
  function Wrapped(cursor: nat, k: nat, size: nat): nat
    requires 0 < size
  {
    (cursor + k) % size
  }

  /** Which of `n` positions step `k` picks. */
  function Position(cursor: nat, n: nat, k: nat, size: nat): nat
    requires 0 < n && 0 < size
  {
    Wrapped(cursor, k, size) % n
  }

  /** As many steps as there are positions pick different ones, hence every one of them. */
  ghost predicate VisitsAll(cursor: nat, n: nat, size: nat)
    requires 0 < n && 0 < size
  {
    forall i: nat, j: nat :: i < j < n ==> Position(cursor, n, i, size) != Position(cursor, n, j, size)
  }

  // ----- Remainders -----

  lemma ModIs(a: nat, q: int, r: nat, n: nat)
    requires r < n && a == q * n + r
    ensures a % n == r
  {
    var d := a / n - q;
    assert a == a / n * n + a % n;
    assert d * n == r - a % n;
    assert d >= 1 ==> d * n >= n;
    assert d <= -1 ==> d * n <= 0 - n;
  }

  lemma ModSame(a: nat, b: nat, q: int, n: nat)
    requires 0 < n && b == a + q * n
    ensures a % n == b % n
  {
    var p, r := a / n, a % n;
    assert a == p * n + r;
    assert b == (p + q) * n + r;
    ModIs(b, p + q, r, n);
  }

  lemma ModApart(a: nat, i: nat, j: nat, n: nat)
    requires i < j < i + n
    ensures (a + i) % n != (a + j) % n
  {
    var q, r := (a + i) / n, (a + i) % n;
    assert a + i == q * n + r;
    var s := r + (j - i);
    if s < n {
      ModIs(a + j, q, s, n);
    } else {
      assert a + j == (q + 1) * n + (s - n);
      ModIs(a + j, q + 1, s - n, n);
    }
  }

  lemma WrappedStart(cursor: nat, size: nat)
    requires cursor < size
    ensures Wrapped(cursor, 0, size) == cursor
  {
    ModIs(cursor, 0, cursor, size);
  }

  lemma WrappedNext(cursor: nat, k: nat, size: nat)
    requires 0 < size
    ensures (Wrapped(cursor, k, size) + 1) % size == Wrapped(cursor, k + 1, size)
  {
    var q, r := (cursor + k) / size, (cursor + k) % size;
    assert cursor + k == q * size + r;
    ModSame(r + 1, cursor + (k + 1), q, size);
  }

  /** Before the cursor wraps a step is its distance from the start; after, from the wrap. */
  lemma WrappedIs(cursor: nat, k: nat, size: nat)
    requires cursor < size && cursor + k < 2 * size
    ensures Wrapped(cursor, k, size) == if cursor + k < size then cursor + k else cursor + k - size
  {
    if cursor + k < size {
      ModIs(cursor + k, 0, cursor + k, size);
    } else {
      ModIs(cursor + k, 1, cursor + k - size, size);
    }
  }

  // ----- Rounds -----

  lemma UnwrappedRound(cursor: nat, n: nat, size: nat)
    requires 0 < n && cursor < size && cursor + n <= size
    ensures VisitsAll(cursor, n, size)
  {
    forall i: nat, j: nat | i < j < n ensures Position(cursor, n, i, size) != Position(cursor, n, j, size) {
      WrappedIs(cursor, i, size);
      WrappedIs(cursor, j, size);
      hide Wrapped;
      ModApart(cursor, i, j, n);
    }
  }

  /** Where the positions divide the width, wrapping does not show. */
  lemma WholePosition(cursor: nat, n: nat, k: nat, size: nat)
    requires 0 < n && 0 < size && size % n == 0
    ensures Position(cursor, n, k, size) == (cursor + k) % n
  {
    var q, t := (cursor + k) / size, size / n;
    assert cursor + k == q * size + Wrapped(cursor, k, size);
    assert size == t * n;
    assert q * size == (q * t) * n;
    ModSame(Wrapped(cursor, k, size), cursor + k, q * t, n);
  }

  lemma WholeRound(cursor: nat, n: nat, size: nat)
    requires 0 < n && 0 < size && size % n == 0
    ensures VisitsAll(cursor, n, size)
  {
    hide Position;
    forall i: nat, j: nat | i < j < n ensures Position(cursor, n, i, size) != Position(cursor, n, j, size) {
      WholePosition(cursor, n, i, size);
      WholePosition(cursor, n, j, size);
      ModApart(cursor, i, j, n);
    }
  }

  /** The position a step picks, from its distance to the start or to the wrap. */
  lemma PositionIs(cursor: nat, n: nat, k: nat, size: nat, q: int, r: nat)
    requires cursor < size && cursor + k < 2 * size && r < n
    requires (if cursor + k < size then cursor + k else cursor + k - size) == q * n + r
    ensures Position(cursor, n, k, size) == r
  {
    WrappedIs(cursor, k, size);
    hide Wrapped;
    ModIs(Wrapped(cursor, k, size), q, r, n);
  }

  /** A round that wraps short of a whole number of turns picks some position twice. */
  lemma WrapRepeats(cursor: nat, n: nat, size: nat, q: nat, c: nat) returns (i: nat, j: nat)
    requires c < n <= size && cursor < size < cursor + n && cursor == q * n + c && c + (size - cursor) != n
    ensures i < j < n && Position(cursor, n, i, size) == Position(cursor, n, j, size)
  {
    hide Position;
    var m := size - cursor;
    if c == 0 {
      i, j := 0, m;
      PositionIs(cursor, n, i, size, q, 0);
      PositionIs(cursor, n, j, size, 0, 0);
    } else if c + m > n {
      i, j := n - c, m;
      NextTurn(q, n);
      PositionIs(cursor, n, i, size, q + 1, 0);
      PositionIs(cursor, n, j, size, 0, 0);
    } else {
      i, j := 0, m + c;
      PositionIs(cursor, n, i, size, q, c);
      PositionIs(cursor, n, j, size, 0, c);
    }
  }

  lemma NextTurn(q: nat, n: nat)
    ensures (q + 1) * n == q * n + n
  {
  }

  /** A remainder of the width shows in where the cursor wraps. */
  lemma WrapsUneven(cursor: nat, n: nat, size: nat) returns (q: nat, c: nat)
    requires 0 < n && cursor < size && size % n != 0
    ensures c < n && cursor == q * n + c && c + (size - cursor) != n
  {
    q, c := cursor / n, cursor % n;
    assert cursor == q * n + c;
    if c + (size - cursor) == n {
      NextTurn(q, n);
      ModIs(size, q + 1, 0, n);
    }
  }

  /** A round visits every position exactly unless the cursor wraps in it and the positions do not divide its width. */
  lemma RoundRobinIff(cursor: nat, n: nat, size: nat)
    requires 0 < n && cursor < size
    ensures VisitsAll(cursor, n, size) <==> cursor + n <= size || size % n == 0
  {
    if cursor + n <= size {
      UnwrappedRound(cursor, n, size);
    } else if size % n == 0 {
      WholeRound(cursor, n, size);
    } else if n <= size {
      var q, c := WrapsUneven(cursor, n, size);
      var i, j := WrapRepeats(cursor, n, size, q, c);
    } else {
      FullTurn(cursor, n, size);
    }
  }

  /** A full turn of the counter comes back to where it was. */
  lemma FullTurn(cursor: nat, n: nat, size: nat)
    requires cursor < size < n
    ensures !VisitsAll(cursor, n, size)
  {
    WrappedIs(cursor, 0, size);
    WrappedIs(cursor, size, size);
    hide Wrapped;
    assert Position(cursor, n, 0, size) == Position(cursor, n, size, size);
  }
}
