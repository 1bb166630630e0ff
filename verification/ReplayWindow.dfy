/**
 The anti-replay window of a session: a ring of 2048 bits kept in 32 machine
 words, with the largest accepted nonce as its moving edge.

 The specification is the set of every nonce accepted so far. `Window` keeps that
 set as a ghost field and its methods are proved to decide exactly from it.
 */
module ReplayWindow {

  const WINDOW_SIZE := 2048
  const WORD_BITS := 64
  const BITMAP_WORDS := 32

  /** A 64-bit unsigned nonce, as carried on the wire. */
  type Nonce = n: int | 0 <= n < 0x1_0000_0000_0000_0000

  // ----- Specification

  /** `n` is new, and less than `WINDOW_SIZE` behind every accepted nonce. */
  ghost predicate Fresh(accepted: set<Nonce>, n: Nonce) {
    n !in accepted && forall m: Nonce :: m in accepted ==> m - n < WINDOW_SIZE
  }

  /** The accepted set after `n` was offered. */
  ghost function Offer(accepted: set<Nonce>, n: Nonce): set<Nonce> {
    if Fresh(accepted, n) then accepted + {n} else accepted
  }

  /** The accepted set after all of `ns` were offered in order. */
  ghost function OfferAll(accepted: set<Nonce>, ns: seq<Nonce>): set<Nonce>
    decreases |ns|
  {
    if ns == [] then accepted else OfferAll(Offer(accepted, ns[0]), ns[1..])
  }

  /** Nothing leaves the accepted set. */
  lemma {:induction false} OfferAllGrows(accepted: set<Nonce>, ns: seq<Nonce>)
    ensures accepted <= OfferAll(accepted, ns)
    decreases |ns|
  {
    if ns != [] {
      OfferAllGrows(Offer(accepted, ns[0]), ns[1..]);
    }
  }

  /** A nonce rejected once is rejected for ever, whatever arrives in between. */
  lemma RejectedForever(accepted: set<Nonce>, n: Nonce, ns: seq<Nonce>)
    requires !Fresh(accepted, n)
    ensures !Fresh(OfferAll(accepted, ns), n)
  {
    OfferAllGrows(accepted, ns);
  }

  /** Over any run a nonce is accepted at most once: after its acceptance every offer of it fails. */
  lemma AcceptedAtMostOnce(accepted: set<Nonce>, n: Nonce, ns: seq<Nonce>)
    ensures !Fresh(OfferAll(Offer(accepted, n), ns), n)
  {
    RejectedForever(Offer(accepted, n), n, ns);
  }

  // ----- Bits of the ring

  function Mask(k: nat): bv64
    requires k < WORD_BITS
  {
    (1 as bv64) << (k as bv6)
  }

  predicate Has(word: bv64, mask: bv64) {
    word & mask != 0
  }

  function With(word: bv64, mask: bv64): bv64 {
    word | mask
  }

  function Without(word: bv64, mask: bv64): bv64 {
    word & !mask
  }

  lemma DisjointMasksAgree(w: bv64, a: bv64, b: bv64)
    requires a & b == 0
    ensures With(w, a) & b == w & b
    ensures Without(w, a) & b == w & b
  {}

  lemma OtherMask(w: bv64, a: bv64, b: bv64)
    requires a & b == 0
    ensures Has(With(w, a), b) <==> Has(w, b)
    ensures Has(Without(w, a), b) <==> Has(w, b)
  {
    hide With, Without;
    DisjointMasksAgree(w, a, b);
  }

  lemma SameMask(w: bv64, a: bv64)
    requires a != 0
    ensures Has(With(w, a), a) && !Has(Without(w, a), a)
  {}

  lemma ShiftsDiffer(j: bv6, k: bv6)
    ensures (1 as bv64) << j != 0
    ensures j != k ==> ((1 as bv64) << j) & ((1 as bv64) << k) == 0
  {}

  lemma ShiftAmountRoundTrip(j: int)
    requires 0 <= j < WORD_BITS
    ensures (j as bv6) as int == j
  {}

  /** Masks are non-zero, and masks of different bits are disjoint. */
  lemma MasksDiffer(j: nat, k: nat)
    requires j < WORD_BITS && k < WORD_BITS
    ensures Mask(j) != 0
    ensures j != k ==> Mask(j) & Mask(k) == 0
  {
    ShiftAmountRoundTrip(j);
    ShiftAmountRoundTrip(k);
    ShiftsDiffer(j as bv6, k as bv6);
  }

  /** Setting or clearing bit `k` of a word decides bit `k` and no other bit. */
  lemma SetAndClear(word: bv64, j: nat, k: nat)
    requires j < WORD_BITS && k < WORD_BITS
    ensures Has(With(word, Mask(k)), Mask(j)) <==> j == k || Has(word, Mask(j))
    ensures Has(Without(word, Mask(k)), Mask(j)) <==> j != k && Has(word, Mask(j))
  {
    hide Mask, Has, With, Without;
    MasksDiffer(k, j);
    if j == k {
      SameMask(word, Mask(k));
    } else {
      OtherMask(word, Mask(k), Mask(j));
    }
  }

  lemma ZeroHasNone(mask: bv64)
    ensures !Has(0, mask)
  {}

  /** The word and the bit inside it that hold a nonce's ring position. */
  function WordOf(n: Nonce): (w: nat)
    ensures w < BITMAP_WORDS
  {
    (n % WINDOW_SIZE) / WORD_BITS
  }

  function BitOf(n: Nonce): (b: nat)
    ensures b < WORD_BITS
  {
    (n % WINDOW_SIZE) % WORD_BITS
  }

  /** Nonces less than a window apart occupy different positions. */
  lemma NearbyPositionsDiffer(m: int, n: int)
    requires 0 < n - m < WINDOW_SIZE
    ensures m % WINDOW_SIZE != n % WINDOW_SIZE
  {}

  // ----- The window

  class Window {
    var max: Nonce
    var bitmap: array<bv64>
    var inited: bool
    ghost var accepted: set<Nonce>

    ghost predicate Bit(n: Nonce)
      reads this`bitmap, bitmap
      requires bitmap.Length == BITMAP_WORDS
    {
      Has(bitmap[WordOf(n)], Mask(BitOf(n)))
    }

    /** Inside the window that ends at `edge`, the ring holds exactly `marks`. */
    ghost predicate Agrees(edge: int, marks: set<Nonce>)
      reads this`bitmap, bitmap
      requires bitmap.Length == BITMAP_WORDS
    {
      forall n: Nonce :: edge - WINDOW_SIZE < n <= edge ==> (Bit(n) <==> n in marks)
    }

    ghost predicate Valid()
      reads this, bitmap
    {
      && bitmap.Length == BITMAP_WORDS
      && (inited <==> accepted != {})
      && (!inited ==> forall n: Nonce :: !Bit(n))
      && (inited ==>
            && max in accepted
            && (forall n: Nonce :: n in accepted ==> n <= max)
            && Agrees(max, accepted))
    }

    constructor ()
      ensures Valid() && fresh(bitmap) && accepted == {}
    {
      max, inited, accepted := 0, false, {};
      bitmap := new bv64[BITMAP_WORDS](_ => 0);
      new;
      hide Mask, Has, With, Without;
      forall n: Nonce ensures !Bit(n) { ZeroHasNone(Mask(BitOf(n))); }
    }

    method SetBit(n: Nonce)
      requires bitmap.Length == BITMAP_WORDS
      modifies bitmap
      ensures forall m: Nonce :: Bit(m) <==> m % WINDOW_SIZE == n % WINDOW_SIZE || old(Bit(m))
    {
      hide Mask, Has, With, Without;
      var w := WordOf(n);
      bitmap[w] := With(bitmap[w], Mask(BitOf(n)));
      forall m: Nonce
        ensures Bit(m) <==> m % WINDOW_SIZE == n % WINDOW_SIZE || old(Bit(m))
      {
        SetAndClear(old(bitmap[w]), BitOf(m), BitOf(n));
      }
    }

    method ClearBit(n: Nonce)
      requires bitmap.Length == BITMAP_WORDS
      modifies bitmap
      ensures forall m: Nonce :: Bit(m) <==> m % WINDOW_SIZE != n % WINDOW_SIZE && old(Bit(m))
    {
      hide Mask, Has, With, Without;
      var w := WordOf(n);
      bitmap[w] := Without(bitmap[w], Mask(BitOf(n)));
      forall m: Nonce
        ensures Bit(m) <==> m % WINDOW_SIZE != n % WINDOW_SIZE && old(Bit(m))
      {
        SetAndClear(old(bitmap[w]), BitOf(m), BitOf(n));
      }
    }

    method GetBit(n: Nonce) returns (bit: bool)
      requires bitmap.Length == BITMAP_WORDS
      ensures bit <==> Bit(n)
    {
      bit := Has(bitmap[WordOf(n)], Mask(BitOf(n)));
    }

    /** The edge jumps a whole window or more: every word is zeroed. */
    method ClearAll()
      requires bitmap.Length == BITMAP_WORDS
      modifies bitmap
      ensures forall m: Nonce :: !Bit(m)
    {
      hide Mask, Has, With, Without;
      for i := 0 to BITMAP_WORDS
        invariant forall j :: 0 <= j < i ==> bitmap[j] == 0
      {
        bitmap[i] := 0;
      }
      forall m: Nonce ensures !Bit(m) { ZeroHasNone(Mask(BitOf(m))); }
    }

    /** The edge moves by less than a window: the positions it moves over are cleared one by one. */
    method ClearAhead(advance: nat)
      requires Valid() && inited
      requires 0 < advance < WINDOW_SIZE && max + advance < 0x1_0000_0000_0000_0000
      modifies bitmap
      ensures Agrees(max + advance, accepted)
    {
      hide Mask, Has, With, Without;
      var i := 1;
      while i <= advance
        invariant 1 <= i <= advance + 1
        invariant forall m: Nonce :: max < m < max + i ==> !Bit(m)
        invariant forall m: Nonce :: max + advance - WINDOW_SIZE < m <= max ==> (Bit(m) <==> m in accepted)
      {
        forall m: Nonce | max + advance - WINDOW_SIZE < m < max + i
          ensures m % WINDOW_SIZE != (max + i) % WINDOW_SIZE
        {
          NearbyPositionsDiffer(m, max + i);
        }
        ClearBit(max + i);
        i := i + 1;
      }
    }

    /** Sets the bit of a nonce inside the window that ends at `edge`; no other nonce of the window shares it. */
    method Mark(n: Nonce, ghost edge: Nonce, ghost marks: set<Nonce>)
      requires bitmap.Length == BITMAP_WORDS
      requires edge - WINDOW_SIZE < n <= edge && Agrees(edge, marks)
      modifies bitmap
      ensures Agrees(edge, marks + {n})
    {
      hide Mask, Has, With, Without;
      SetBit(n);
      forall m: Nonce | edge - WINDOW_SIZE < m <= edge
        ensures Bit(m) <==> m in marks + {n}
      {
        if m < n {
          NearbyPositionsDiffer(m, n);
        } else if n < m {
          NearbyPositionsDiffer(n, m);
        }
      }
    }

    /** Reports whether `n` would be accepted, without recording it. */
    method Check(n: Nonce) returns (ok: bool)
      requires Valid()
      ensures ok <==> Fresh(accepted, n)
    {
      hide Mask, Has, With, Without;
      if !inited || n > max {
        return true;
      }
      var bit := GetBit(n);
      ok := max - n < WINDOW_SIZE && !bit;
    }

    method CheckAndMark(n: Nonce) returns (ok: bool)
      requires Valid()
      modifies this, bitmap
      ensures Valid() && bitmap == old(bitmap)
      ensures ok <==> Fresh(old(accepted), n)
      ensures accepted == Offer(old(accepted), n)
    {
      hide Bit;
      if !inited {
        max, inited := n, true;
        Mark(n, n, {});
        accepted := accepted + {n};
        return true;
      }
      if n > max {
        var advance := n - max;
        if advance >= WINDOW_SIZE {
          ClearAll();
        } else {
          ClearAhead(advance);
        }
        max := n;
        Mark(n, n, accepted);
        accepted := accepted + {n};
        return true;
      }
      if max - n >= WINDOW_SIZE {
        return false;
      }
      var bit := GetBit(n);
      if bit {
        return false;
      }
      Mark(n, max, accepted);
      accepted := accepted + {n};
      return true;
    }
  }
}
