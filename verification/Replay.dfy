/** The sliding replay window of `crates/ceky-crypto/src/session.rs`.

  Four 64-bit words, changed in place by reverse loops, stand for the last 256 nonces. The specification
  is a set of accepted nonces computed from the history of presented nonces, with no bitmap in it.
 */
module Replay {
  import opened Bits

  const WINDOW_SIZE: nat := 256
  const WORDS: nat := 4

  // ---------- Specification: a set of accepted nonces ----------

  /** Largest nonce presented so far, 0 before the first call. */
  function Largest(history: seq<nat>): (m: nat)
  {
    if history == [] then 0
    else
      var before, last := Largest(history[..|history| - 1]), history[|history| - 1];
      if last > before then last else before
  }

  lemma {:induction false} LargestIsLargest(history: seq<nat>)
    ensures forall n :: n in history ==> n <= Largest(history)
    ensures Largest(history) in history || Largest(history) == 0
  {
    if history != [] {
      var before := history[..|history| - 1];
      LargestIsLargest(before);
      assert history == before + [history[|history| - 1]];
    }
  }

  /** The nonces for which some call of the history returned true. */
  function Accepted(history: seq<nat>): (s: set<nat>)
    decreases |history|, 0
  {
    if history == [] then {}
    else
      var before, last := history[..|history| - 1], history[|history| - 1];
      if Fresh(before, last) then Accepted(before) + {last} else Accepted(before)
  }

  /** What the window promises for the next call: accept exactly the nonces that were never accepted
      and are less than 256 behind the largest one presented. */
  predicate Fresh(history: seq<nat>, nonce: nat)
    decreases |history|, 1
  {
    nonce !in Accepted(history) && nonce + WINDOW_SIZE > Largest(history)
  }

  /** Rejected presentations change nothing that matters: a nonce is fresh exactly when it was never
      presented at all and no presented nonce is 256 or more ahead of it. */
  lemma FreshIff(history: seq<nat>, nonce: nat)
    ensures Fresh(history, nonce)
       <==> nonce !in history && forall m :: m in history ==> m < nonce + WINDOW_SIZE
  {
    AcceptedWerePresented(history);
    LargestIsLargest(history);
    if nonce in history && nonce !in Accepted(history) {
      PresentedButRejected(history, nonce);
    }
  }

  lemma {:induction false} AcceptedWerePresented(history: seq<nat>)
    ensures forall n :: n in Accepted(history) ==> n in history
  {
    if history != [] {
      var before := history[..|history| - 1];
      AcceptedWerePresented(before);
      assert history == before + [history[|history| - 1]];
    }
  }

  /** A nonce that was presented and not accepted has fallen out of the window for good. */
  lemma {:induction false} PresentedButRejected(history: seq<nat>, nonce: nat)
    requires nonce in history && nonce !in Accepted(history)
    ensures Largest(history) >= nonce + WINDOW_SIZE
  {
    var before, last := history[..|history| - 1], history[|history| - 1];
    assert history == before + [last];
    if nonce in before {
      PresentedButRejected(before, nonce);
    }
  }

  // ---------- The bitmap ----------

  /** Bit `d` of the window: has nonce `max_nonce - d` been seen? */
  ghost predicate Seen(words: seq<U64>, d: nat)
    requires |words| == WORDS && d < WINDOW_SIZE
  {
    Bit(words[d / 64], d % 64)
  }

  /** The words after the word loop. */
  ghost function WordsMoved(words: seq<U64>, k: nat): (r: seq<U64>)
    requires |words| == WORDS
  {
    seq(WORDS, i requires 0 <= i < WORDS => if i >= k then words[i - k] else 0)
  }

  /** One word after the bit loop: its own bits and the carry from the word below. */
  function ShiftedWord(words: seq<U64>, i: nat, k: nat): (w: U64)
    requires |words| == WORDS && i < WORDS && k < 64
  {
    if i == 0 then Shl64(words[0], k)
    else
      Pow2Constants();
      OrBound(Shl64(words[i], k), Shr(words[i - 1], 64 - k), 64);
      Or(Shl64(words[i], k), Shr(words[i - 1], 64 - k))
  }

  /** The words after the bit loop. */
  ghost function BitsMoved(words: seq<U64>, k: nat): (r: seq<U64>)
    requires |words| == WORDS && k < 64
  {
    seq(WORDS, i requires 0 <= i < WORDS => ShiftedWord(words, i, k))
  }

  /** What the two loops of `shift_left` do together. */
  ghost function Shifted(words: seq<U64>, amount: nat): (r: seq<U64>)
    requires |words| == WORDS
  {
    if amount == 0 then words
    else if amount < 64 then BitsMoved(words, amount)
    else if amount % 64 == 0 then WordsMoved(words, amount / 64)
    else BitsMoved(WordsMoved(words, amount / 64), amount % 64)
  }

  /** All 256 bits have moved up by `amount`. */
  ghost predicate MovedBy(words: seq<U64>, moved: seq<U64>, amount: nat)
    requires |words| == WORDS && |moved| == WORDS
  {
    forall d: nat :: d < WINDOW_SIZE ==> (Seen(moved, d) <==> d >= amount && Seen(words, d - amount))
  }

  lemma WordsMovedSeen(words: seq<U64>, k: nat, amount: nat)
    requires |words| == WORDS && amount == 64 * k
    ensures MovedBy(words, WordsMoved(words, k), amount)
  {
    forall d: nat | d < WINDOW_SIZE
      ensures Seen(WordsMoved(words, k), d) <==> d >= amount && Seen(words, d - amount)
    {
      if d >= amount {
        assert (d - amount) / 64 == d / 64 - k && (d - amount) % 64 == d % 64;
      } else {
        BitOfZero(d % 64);
      }
    }
  }

  lemma BitsMovedSeen(words: seq<U64>, k: nat)
    requires |words| == WORDS && 0 < k < 64
    ensures MovedBy(words, BitsMoved(words, k), k)
  {
    forall d: nat | d < WINDOW_SIZE ensures Seen(BitsMoved(words, k), d) <==> d >= k && Seen(words, d - k) {
      BitMovedSeen(words, k, d);
    }
  }

  lemma BitMovedSeen(words: seq<U64>, k: nat, d: nat)
    requires |words| == WORDS && 0 < k < 64 && d < WINDOW_SIZE
    ensures Seen(BitsMoved(words, k), d) <==> d >= k && Seen(words, d - k)
  {
    var i, j := d / 64, d % 64;
    Shl64Bit(words[i], k, j);
    if i > 0 {
      OrBit(Shl64(words[i], k), Shr(words[i - 1], 64 - k), j);
      ShrBit(words[i - 1], 64 - k, j);
      Pow2Constants();
      if j >= k {
        HighBitsZero(words[i - 1], 64, j + 64 - k);
      } else {
        assert (d - k) / 64 == i - 1 && (d - k) % 64 == j + 64 - k;
      }
    }
    if j >= k {
      assert (d - k) / 64 == i && (d - k) % 64 == j - k;
    }
  }

  lemma MovedTwice(a: seq<U64>, b: seq<U64>, c: seq<U64>, k: nat, m: nat, amount: nat)
    requires |a| == WORDS && |b| == WORDS && |c| == WORDS && amount == k + m
    requires MovedBy(a, b, k) && MovedBy(b, c, m)
    ensures MovedBy(a, c, amount)
  {
  }

  lemma NotMoved(words: seq<U64>)
    requires |words| == WORDS
    ensures MovedBy(words, words, 0)
  {
  }

  lemma WordsAndBitsMoved(words: seq<U64>, k: nat, m: nat, amount: nat)
    requires |words| == WORDS && 0 < m < 64 && amount == 64 * k + m
    ensures MovedBy(words, BitsMoved(WordsMoved(words, k), m), amount)
  {
    var moved := WordsMoved(words, k);
    WordsMovedSeen(words, k, amount - m);
    BitsMovedSeen(moved, m);
    MovedTwice(words, moved, BitsMoved(moved, m), amount - m, m, amount);
  }

  /** `shift_left` moves all 256 bits by exactly the given amount, for every amount. */
  lemma ShiftedMoves(words: seq<U64>, amount: nat)
    requires |words| == WORDS
    ensures MovedBy(words, Shifted(words, amount), amount)
  {
    if amount == 0 {
      NotMoved(words);
    } else if amount < 64 {
      BitsMovedSeen(words, amount);
    } else if amount % 64 == 0 {
      WordsMovedSeen(words, amount / 64, amount);
    } else {
      WordsAndBitsMoved(words, amount / 64, amount % 64, amount);
    }
  }

  /** The words agree with the history: bit `d` is set exactly when `max - d` was accepted. */
  ghost predicate Agrees(words: seq<U64>, max: nat, history: seq<nat>)
  {
    && |words| == WORDS
    && max == Largest(history)
    && forall d: nat :: d < WINDOW_SIZE && d <= max ==> (Seen(words, d) <==> max - d in Accepted(history))
  }

  lemma HistoryStep(history: seq<nat>, n: nat)
    ensures Accepted(history + [n]) == if Fresh(history, n) then Accepted(history) + {n} else Accepted(history)
    ensures Largest(history + [n]) == if n > Largest(history) then n else Largest(history)
    ensures forall a :: a in Accepted(history) ==> a <= Largest(history)
  {
    assert (history + [n])[..|history|] == history;
    AcceptedWerePresented(history);
    LargestIsLargest(history);
  }

  /** The bits have moved up by `shift` and bit 0 is set. */
  ghost predicate SlidBy(words: seq<U64>, slid: seq<U64>, shift: nat)
    requires |words| == WORDS && |slid| == WORDS
  {
    forall d: nat :: d < WINDOW_SIZE ==> (Seen(slid, d) <==> d == 0 || (d >= shift && Seen(words, d - shift)))
  }

  /** A nonce above the maximum: the window slides and its bit 0 is set. */
  lemma AgreesAhead(words: seq<U64>, slid: seq<U64>, max: nat, history: seq<nat>, n: nat)
    requires Agrees(words, max, history) && n > max && |slid| == WORDS
    requires SlidBy(words, slid, n - max)
    ensures Agrees(slid, n, history + [n]) && Fresh(history, n)
  {
    HistoryStep(history, n);
    forall d: nat | d < WINDOW_SIZE && d <= n ensures Seen(slid, d) <==> n - d in Accepted(history + [n]) {
      if d >= n - max {
        assert n - d == max - (d - (n - max));
      }
    }
  }

  /** A nonce inside the window whose bit was clear: only its bit changes. */
  lemma AgreesBehind(words: seq<U64>, marked: seq<U64>, max: nat, history: seq<nat>, n: nat)
    requires Agrees(words, max, history) && n <= max < n + WINDOW_SIZE && |marked| == WORDS
    requires !Seen(words, max - n)
    requires forall d: nat :: d < WINDOW_SIZE ==> (Seen(marked, d) <==> d == max - n || Seen(words, d))
    ensures Agrees(marked, max, history + [n]) && Fresh(history, n)
  {
    HistoryStep(history, n);
    assert max - (max - n) == n;
  }

  /** A nonce too old or already marked: nothing changes. */
  lemma AgreesRejected(words: seq<U64>, max: nat, history: seq<nat>, n: nat)
    requires Agrees(words, max, history) && n <= max
    requires max >= n + WINDOW_SIZE || Seen(words, max - n)
    ensures Agrees(words, max, history + [n]) && !Fresh(history, n)
  {
    HistoryStep(history, n);
    assert max - (max - n) == n;
  }

  class ReplayWindow {
    var maxNonce: U64
    var bitmap: array<U64>
    /** Every nonce presented so far, in order. */
    ghost var history: seq<nat>

    ghost predicate Valid()
      reads this, bitmap
    {
      bitmap.Length == WORDS && Agrees(bitmap[..], maxNonce, history)
    }

    constructor ()
      ensures Valid() && fresh(bitmap)
      ensures history == []
    {
      maxNonce := 0;
      bitmap := new U64[WORDS](_ => 0);
      history := [];
      new;
      forall d: nat | d < WINDOW_SIZE ensures !Seen(bitmap[..], d) {
        BitOfZero(d % 64);
      }
    }

    /** The first loop of `shift_left`: whole words move up. */
    method ShiftWords(k: nat)
      requires bitmap.Length == WORDS
      modifies bitmap
      ensures bitmap[..] == WordsMoved(old(bitmap[..]), k)
    {
      ghost var was := bitmap[..];
      var i := WORDS;
      while i > 0
        invariant 0 <= i <= WORDS
        invariant forall m :: 0 <= m < i ==> bitmap[m] == was[m]
        invariant forall m :: i <= m < WORDS ==> bitmap[m] == WordsMoved(was, k)[m]
      {
        i := i - 1;
        if i >= k {
          bitmap[i] := bitmap[i - k];
        } else {
          bitmap[i] := 0;
        }
      }
    }

    /** The second loop: bits move up inside the words, with the carry from the word below. */
    method ShiftBits(k: nat)
      requires bitmap.Length == WORDS && k < 64
      modifies bitmap
      ensures bitmap[..] == BitsMoved(old(bitmap[..]), k)
    {
      ghost var was := bitmap[..];
      var i := WORDS;
      while i > 0
        invariant 0 <= i <= WORDS
        invariant forall m :: 0 <= m < i ==> bitmap[m] == was[m]
        invariant forall m :: i <= m < WORDS ==> bitmap[m] == ShiftedWord(was, m, k)
      {
        i := i - 1;
        bitmap[i] := Shl64(bitmap[i], k);
        if i > 0 {
          Pow2Constants();
          OrBound(bitmap[i], Shr(bitmap[i - 1], 64 - k), 64);
          bitmap[i] := Or(bitmap[i], Shr(bitmap[i - 1], 64 - k));
        }
      }
    }

    method ShiftLeft(amount: nat)
      requires bitmap.Length == WORDS
      modifies bitmap
      ensures bitmap[..] == Shifted(old(bitmap[..]), amount)
    {
      if amount >= 64 {
        var wordShift, bitShift := amount / 64, amount % 64;
        ShiftWords(wordShift);
        if bitShift > 0 {
          ShiftBits(bitShift);
        }
      } else if amount > 0 {
        ShiftBits(amount);
      }
    }

    /** A jump of 256 or more resets the whole window. */
    method Clear()
      modifies this`bitmap
      ensures fresh(bitmap) && bitmap.Length == WORDS
      ensures forall d: nat :: d < WINDOW_SIZE ==> !Seen(bitmap[..], d)
    {
      bitmap := new U64[WORDS](_ => 0);
      forall d: nat | d < WINDOW_SIZE ensures !Seen(bitmap[..], d) {
        BitOfZero(d % 64);
      }
    }

    /** Set bit `d`. */
    method Mark(d: nat)
      requires bitmap.Length == WORDS && d < WINDOW_SIZE
      modifies bitmap
      ensures forall e: nat :: e < WINDOW_SIZE ==> (Seen(bitmap[..], e) <==> e == d || Seen(old(bitmap[..]), e))
    {
      ghost var was := bitmap[..];
      var word, bit := d / 64, d % 64;
      Pow2Constants();
      Pow2Monotone(bit + 1, 64);
      OrBound(bitmap[word], Pow2(bit), 64);
      bitmap[word] := Or(bitmap[word], Pow2(bit));
      forall e: nat | e < WINDOW_SIZE ensures Seen(bitmap[..], e) <==> e == d || Seen(was, e) {
        OrBit(was[word], Pow2(bit), e % 64);
        BitOfPow2(bit, e % 64);
        assert e == d <==> e / 64 == word && e % 64 == bit;
      }
    }

    /** The branch for a new highest nonce. */
    method SlideTo(nonce: U64)
      requires bitmap.Length == WORDS && nonce > maxNonce
      modifies this`maxNonce, this`bitmap, bitmap
      ensures maxNonce == nonce && bitmap.Length == WORDS && (bitmap == old(bitmap) || fresh(bitmap))
      ensures SlidBy(old(bitmap[..]), bitmap[..], nonce - old(maxNonce))
    {
      var shift := nonce - maxNonce;
      if shift >= WINDOW_SIZE {
        Clear();
      } else {
        ShiftedMoves(bitmap[..], shift);
        ShiftLeft(shift);
      }
      maxNonce := nonce;
      Mark(0);
    }

    /** `check_and_mark`: the bitmap answers as the set of accepted nonces does. */
    method CheckAndMark(nonce: U64) returns (isNew: bool)
      requires Valid()
      modifies this, bitmap
      ensures Valid() && history == old(history) + [nonce]
      ensures bitmap == old(bitmap) || fresh(bitmap)
      ensures isNew <==> Fresh(old(history), nonce)
    {
      ghost var words, max, before := bitmap[..], maxNonce, history;
      history := history + [nonce];
      if nonce > maxNonce {
        SlideTo(nonce);
        AgreesAhead(words, bitmap[..], max, before, nonce);
        return true;
      }
      var diff := maxNonce - nonce;
      if diff >= WINDOW_SIZE {
        AgreesRejected(words, max, before, nonce);
        return false;
      }
      MaskTestsBit(bitmap[diff / 64], diff % 64);
      if And(bitmap[diff / 64], Pow2(diff % 64)) != 0 {
        AgreesRejected(words, max, before, nonce);
        return false;
      }
      Mark(diff);
      AgreesBehind(words, bitmap[..], max, before, nonce);
      return true;
    }
  }

  /** Any sequence of calls on a new window: call `i` answers true exactly when nonce `i` was fresh. */
  method RunWindow(nonces: seq<U64>) returns (answers: seq<bool>)
    ensures |answers| == |nonces|
    ensures forall i :: 0 <= i < |nonces| ==> (answers[i] <==> Fresh(nonces[..i], nonces[i]))
  {
    var window := new ReplayWindow();
    answers := [];
    for i := 0 to |nonces|
      invariant window.Valid() && fresh(window) && fresh(window.bitmap)
      invariant window.history == nonces[..i]
      invariant |answers| == i
      invariant forall j :: 0 <= j < i ==> (answers[j] <==> Fresh(nonces[..j], nonces[j]))
    {
      var isNew := window.CheckAndMark(nonces[i]);
      answers := answers + [isNew];
      assert nonces[..i + 1] == nonces[..i] + [nonces[i]];
    }
  }

  /** No nonce is accepted twice, whatever is presented in between. */
  lemma AcceptedAtMostOnce(nonces: seq<nat>, i: nat, j: nat)
    requires i < j < |nonces| && nonces[i] == nonces[j]
    ensures !Fresh(nonces[..j], nonces[j])
  {
    assert nonces[..j][i] == nonces[j];
    FreshIff(nonces[..j], nonces[j]);
  }

  /** Reordering by less than 256 never costs a nonce: if nonces are distinct and none arrives after one
      that is 256 or more ahead of it, every call answers true; and only then. */
  lemma ReorderingWithinWindow(nonces: seq<nat>)
    ensures (forall i :: 0 <= i < |nonces| ==> Fresh(nonces[..i], nonces[i]))
       <==> (forall i, j :: 0 <= i < j < |nonces| ==> nonces[i] != nonces[j] && nonces[i] < nonces[j] + WINDOW_SIZE)
  {
    forall j | 0 <= j < |nonces|
      ensures Fresh(nonces[..j], nonces[j])
         <==> forall i :: 0 <= i < j ==> nonces[i] != nonces[j] && nonces[i] < nonces[j] + WINDOW_SIZE
    {
      FreshIff(nonces[..j], nonces[j]);
      forall i | 0 <= i < j ensures nonces[i] in nonces[..j] {
        assert nonces[..j][i] == nonces[i];
      }
    }
  }
}
