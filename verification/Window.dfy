/**
 * The partition plane's committed window: an unsigned 128-bit mask in which bit `i` marks
 * request `watermark - i`. It refines the plain set of committed requests.
 */
module Window {
  const COMMITTED_WINDOW_BITS := 128

  // ----- Machine words -----

  predicate Bit(word: nat, i: nat) {
    if i == 0 then word % 2 == 1 else Bit(word / 2, i - 1)
  }

  /** The low `n` bits. */
  function Low(word: nat, n: nat): nat {
    if n == 0 then 0 else word % 2 + 2 * Low(word / 2, n - 1)
  }

  function ShiftLeft(word: nat, gap: nat): nat
    decreases gap
  {
    if gap == 0 then word else ShiftLeft(2 * word, gap - 1)
  }

  /** `word | (1 << i)`. */
  function WithBit(word: nat, i: nat): nat {
    if i == 0 then word / 2 * 2 + 1 else word % 2 + 2 * WithBit(word / 2, i - 1)
  }

  /** `(word << gap) | 1` in an `n`-bit register. */
  function ShiftIn(word: nat, gap: nat, n: nat): nat {
    WithBit(Low(ShiftLeft(word, gap), n), 0)
  }

  lemma {:induction false} LowBits(word: nat, n: nat, i: nat)
    ensures Bit(Low(word, n), i) <==> i < n && Bit(word, i)
  {
    if n == 0 {
      ZeroBits(i);
    } else if i > 0 {
      LowBits(word / 2, n - 1, i - 1);
      assert Low(word, n) / 2 == Low(word / 2, n - 1);
    }
  }

  lemma {:induction false} ZeroBits(i: nat)
    ensures !Bit(0, i)
  {
    if i > 0 {
      ZeroBits(i - 1);
    }
  }

  lemma {:induction false} ShiftBits(word: nat, gap: nat, i: nat)
    ensures Bit(ShiftLeft(word, gap), i) <==> i >= gap && Bit(word, i - gap)
    decreases gap
  {
    if gap > 0 {
      ShiftBits(2 * word, gap - 1, i);
      if i >= gap - 1 {
        assert Bit(2 * word, i - (gap - 1)) <==> i >= gap && Bit(word, i - gap) by {
          assert 2 * word / 2 == word;
        }
      }
    }
  }

  lemma {:induction false} WithBits(word: nat, k: nat, i: nat)
    ensures Bit(WithBit(word, k), i) <==> i == k || Bit(word, i)
  {
    if k == 0 {
      assert WithBit(word, 0) / 2 == word / 2;
    } else {
      assert WithBit(word, k) / 2 == WithBit(word / 2, k - 1);
      if i > 0 {
        WithBits(word / 2, k - 1, i - 1);
      }
    }
  }

  lemma ShiftInBits(word: nat, gap: nat, n: nat, i: nat)
    requires 0 < gap
    ensures Bit(ShiftIn(word, gap, n), i) <==> i == 0 || (gap <= i < n && Bit(word, i - gap))
  {
    WithBits(Low(ShiftLeft(word, gap), n), 0, i);
    LowBits(ShiftLeft(word, gap), n, i);
    ShiftBits(word, gap, i);
  }

  /** Words that agree on every bit are equal. */
  lemma {:induction false} BitsDetermine(a: nat, b: nat)
    requires forall i: nat :: Bit(a, i) <==> Bit(b, i)
    ensures a == b
    decreases a + b
  {
    assert a % 2 == b % 2 by { assert Bit(a, 0) <==> Bit(b, 0); }
    if a + b > 0 {
      forall i: nat ensures Bit(a / 2, i) <==> Bit(b / 2, i) {
        assert Bit(a, i + 1) <==> Bit(b, i + 1);
      }
      BitsDetermine(a / 2, b / 2);
    }
  }

  // ----- The window -----

  datatype Slice = Slice(watermark: nat, window: nat)

  datatype SliceRequestStatus = SliceNew | SliceCommitted | SliceAgedOut

  function CheckSliceRequest(s: Slice, request: nat): SliceRequestStatus {
    if request > s.watermark then SliceNew
    else
      var below := s.watermark - request;
      if below >= COMMITTED_WINDOW_BITS then SliceAgedOut
      else if Bit(s.window, below) then SliceCommitted else SliceNew
  }

  /** Folds a committed request in. */
  function Folded(s: Slice, request: nat): Slice {
    if request > s.watermark then
      var gap := request - s.watermark;
      Slice(request, if gap >= COMMITTED_WINDOW_BITS then 1 else ShiftIn(s.window, gap, COMMITTED_WINDOW_BITS))
    else
      var below := s.watermark - request;
      if below < COMMITTED_WINDOW_BITS && !Bit(s.window, below) then s.(window := WithBit(s.window, below)) else s
  }

  /** The window after a client's committed requests, in the order they committed. */
  function After(requests: seq<nat>): Slice
    requires requests != []
  {
    if |requests| == 1 then Slice(requests[0], 1)
    else Folded(After(requests[..|requests| - 1]), requests[|requests| - 1])
  }

  /** The slice says of every request in its window whether it is in the set, and nothing else. */
  ghost predicate Refines(s: Slice, committed: set<nat>) {
    && s.watermark in committed && (forall r :: r in committed ==> r <= s.watermark)
    && forall i: nat :: Bit(s.window, i) <==> i < COMMITTED_WINDOW_BITS && i <= s.watermark && s.watermark - i in committed
  }

  lemma OneBit(i: nat)
    ensures Bit(1, i) <==> i == 0
  {
    if i > 0 {
      ZeroBits(i - 1);
    }
  }

  lemma FoldRefines(s: Slice, committed: set<nat>, request: nat)
    requires Refines(s, committed)
    ensures Refines(Folded(s, request), committed + {request})
  {
    hide Bit, ShiftIn, WithBit;
    var t := Folded(s, request);
    var after := committed + {request};
    forall i: nat ensures Bit(t.window, i) <==> i < COMMITTED_WINDOW_BITS && i <= t.watermark && t.watermark - i in after {
      if request > s.watermark {
        var gap := request - s.watermark;
        OneBit(i);
        ShiftInBits(s.window, gap, COMMITTED_WINDOW_BITS, i);
        if i >= gap {
          assert Bit(s.window, i - gap) <==>
              i - gap < COMMITTED_WINDOW_BITS && i - gap <= s.watermark && s.watermark - (i - gap) in committed;
        }
      } else {
        WithBits(s.window, s.watermark - request, i);
        assert i <= s.watermark ==> (s.watermark - i == request <==> i == s.watermark - request);
      }
    }
  }

  ghost function Values(requests: seq<nat>): set<nat> {
    set r | r in requests
  }

  /** Whatever the order and the repeats, the window holds exactly the recent part of the set. */
  lemma {:induction false} WindowRefinesSet(requests: seq<nat>)
    requires requests != []
    ensures Refines(After(requests), Values(requests))
  {
    hide Bit;
    if |requests| == 1 {
      forall i: nat ensures Bit(1, i) <==> i == 0 {
        OneBit(i);
      }
      assert Values(requests) == {requests[0]};
    } else {
      var init := requests[..|requests| - 1];
      WindowRefinesSet(init);
      FoldRefines(After(init), Values(init), requests[|requests| - 1]);
      assert requests == init + [requests[|requests| - 1]];
      assert Values(requests) == Values(init) + {requests[|requests| - 1]};
    }
  }

  /** The verdict is set membership inside the window. */
  lemma CheckedBySet(requests: seq<nat>, request: nat)
    requires requests != []
    ensures CheckSliceRequest(After(requests), request) ==
      var top := After(requests).watermark;
      if request > top then SliceNew
      else if top - request >= COMMITTED_WINDOW_BITS then SliceAgedOut
      else if request in requests then SliceCommitted else SliceNew
  {
    hide Bit, After;
    WindowRefinesSet(requests);
    var s := After(requests);
    if request <= s.watermark {
      assert s.watermark - (s.watermark - request) == request;
      assert Bit(s.window, s.watermark - request) <==>
          s.watermark - request < COMMITTED_WINDOW_BITS && request in Values(requests);
    }
  }

  /** The window depends only on which requests committed. */
  lemma OrderIrrelevant(a: seq<nat>, b: seq<nat>)
    requires a != [] && b != [] && Values(a) == Values(b)
    ensures After(a) == After(b)
  {
    hide After, Bit, Values;
    WindowRefinesSet(a);
    WindowRefinesSet(b);
    var x, y := After(a), After(b);
    assert x.watermark == y.watermark;
    forall i: nat ensures Bit(x.window, i) <==> Bit(y.window, i) {
      assert Bit(x.window, i) <==> i < COMMITTED_WINDOW_BITS && i <= x.watermark && x.watermark - i in Values(a);
    }
    BitsDetermine(x.window, y.window);
  }
}
