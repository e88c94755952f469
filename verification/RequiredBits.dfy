/** The bitmap of required fields. */
module RequiredBits {
  import opened Bits
  import opened Wire
  import opened Descriptors
  import opened DecodeSpec

  const ALLBITS: nat := TWO32 - 1

  /** Required field number k (counting required fields only) has been seen. */
  ghost predicate NumberSeen(fields: seq<Field>, seen: set<nat>, k: nat) {
    exists i :: 0 <= i < |fields| && IsNumber(fields, i, k) && i in seen
  }

  predicate IsNumber(fields: seq<Field>, i: nat, k: nat)
    requires i < |fields|
  {
    fields[i].htype.Required? && RequiredBefore(fields, i) == k
  }

  /** Bit k of the two words. */
  predicate MapBit(w0: nat, w1: nat, k: nat) { if k < 32 then Bit(w0, k) else Bit(w1, k - 32) }

  /** Bit k of the bitmap is set exactly when required field k has been seen. */
  ghost predicate Tracks(fields: seq<Field>, seen: set<nat>, w0: nat, w1: nat) {
    && w0 < TWO32 && w1 < TWO32
    && forall k :: 0 <= k < 64 ==> (MapBit(w0, w1, k) <==> NumberSeen(fields, seen, k))
  }

  lemma {:induction false} BeforeMono(fields: seq<Field>, i: nat, j: nat)
    requires i < j <= |fields|
    ensures RequiredBefore(fields, i) + (if fields[i].htype.Required? then 1 else 0) <= RequiredBefore(fields, j)
  {
    if i < j - 1 {
      BeforeMono(fields, i, j - 1);
    }
  }

  lemma NumberUnique(fields: seq<Field>, i: nat, j: nat, k: nat)
    requires i < |fields| && j < |fields| && IsNumber(fields, i, k) && IsNumber(fields, j, k)
    ensures i == j
  {
    if i < j {
      BeforeMono(fields, i, j);
    } else if j < i {
      BeforeMono(fields, j, i);
    }
  }

  lemma {:induction false} NumberExists(fields: seq<Field>, n: nat, k: nat) returns (i: nat)
    requires n <= |fields| && k < RequiredBefore(fields, n)
    ensures i < n && IsNumber(fields, i, k)
  {
    if k < RequiredBefore(fields, n - 1) {
      i := NumberExists(fields, n - 1, k);
    } else {
      i := n - 1;
    }
  }

  /** Marking required field i sets exactly its bit. */
  lemma NumberSeenAdd(fields: seq<Field>, seen: set<nat>, i: nat, k: nat)
    requires i < |fields| && fields[i].htype.Required?
    ensures NumberSeen(fields, seen + {i}, k) <==> k == RequiredBefore(fields, i) || NumberSeen(fields, seen, k)
  {
    if NumberSeen(fields, seen, k) {
      var j :| 0 <= j < |fields| && IsNumber(fields, j, k) && j in seen;
      assert j in seen + {i};
    }
    if k == RequiredBefore(fields, i) {
      assert IsNumber(fields, i, k) && i in seen + {i};
    }
  }

  lemma MarkWord(w: nat, b: nat, k: nat)
    requires w < TWO32 && b < 32 && k < 32
    ensures Or(w, Pow2(b)) < TWO32
    ensures Bit(Or(w, Pow2(b)), k) <==> Bit(w, k) || k == b
  {
    OrBit(w, Pow2(b), k);
    Pow2Bit(b, k);
    Pow2Values();
    Pow2Mono(b + 1, 32);
    OrBound(w, Pow2(b), 32);
  }

  lemma MarkTracks(fields: seq<Field>, seen: set<nat>, w0: nat, w1: nat, i: nat)
    requires Tracks(fields, seen, w0, w1) && i < |fields| && fields[i].htype.Required? && RequiredBefore(fields, i) < 64
    ensures var r := RequiredBefore(fields, i);
            if r < 32 then Tracks(fields, seen + {i}, Or(w0, Pow2(r % 32)), w1)
            else Tracks(fields, seen + {i}, w0, Or(w1, Pow2(r % 32)))
  {
    var r := RequiredBefore(fields, i);
    var x0, x1 := if r < 32 then Or(w0, Pow2(r % 32)) else w0, if r < 32 then w1 else Or(w1, Pow2(r % 32));
    MarkWord(if r < 32 then w0 else w1, r % 32, 0);
    forall k | 0 <= k < 64 ensures MapBit(x0, x1, k) <==> NumberSeen(fields, seen + {i}, k) {
      MarkWord(if r < 32 then w0 else w1, r % 32, k % 32);
      NumberSeenAdd(fields, seen, i, k);
      assert MapBit(w0, w1, k) <==> NumberSeen(fields, seen, k);
    }
  }

  lemma NothingTracked(fields: seq<Field>)
    ensures Tracks(fields, {}, 0, 0)
  {
    forall k | 0 <= k < 64 ensures !MapBit(0, 0, k) {
      ZeroBit(k % 32);
    }
  }

  /** Every required field was seen exactly when every number below the count was. */
  lemma AllNumbers(fields: seq<Field>, seen: set<nat>)
    ensures AllSeen(fields, seen) <==>
              forall k :: 0 <= k < RequiredBefore(fields, |fields|) ==> NumberSeen(fields, seen, k)
  {
    var r := RequiredBefore(fields, |fields|);
    if AllSeen(fields, seen) {
      forall k | 0 <= k < r ensures NumberSeen(fields, seen, k) {
        var i := NumberExists(fields, |fields|, k);
      }
    }
    if forall k :: 0 <= k < r ==> NumberSeen(fields, seen, k) {
      forall i | 0 <= i < |fields| && fields[i].htype.Required? ensures i in seen {
        BeforeMono(fields, i, |fields|);
        var k := RequiredBefore(fields, i);
        assert NumberSeen(fields, seen, k);
        var j :| 0 <= j < |fields| && IsNumber(fields, j, k) && j in seen;
        NumberUnique(fields, i, j, k);
      }
    }
  }

  lemma NoSuchNumber(fields: seq<Field>, seen: set<nat>, k: nat)
    requires k >= RequiredBefore(fields, |fields|)
    ensures !NumberSeen(fields, seen, k)
  {
    if NumberSeen(fields, seen, k) {
      var i :| 0 <= i < |fields| && IsNumber(fields, i, k) && i in seen;
      BeforeMono(fields, i, |fields|);
    }
  }

  lemma TopDigit(p: nat, m: nat)
    ensures (p - 1) * m + (m - 1) == p * m - 1
  {
  }

  lemma LowOnes(n: nat)
    requires n <= 32
    ensures ALLBITS / Pow2(32 - n) == Pow2(n) - 1
  {
    Pow2Add(n, 32 - n);
    Pow2Values();
    var p, m := Pow2(n), Pow2(32 - n);
    hide Pow2;
    TopDigit(p, m);
    DivModUnique(ALLBITS, p - 1, m - 1, m);
  }

  predicate AllSet(w: nat, n: nat) { forall k :: 0 <= k < n ==> Bit(w, k) }

  /** A word whose bits from n on are clear equals n low ones exactly when bits 0..n are set. */
  lemma WordIsFull(w: nat, n: nat)
    requires w < TWO32 && n <= 32 && forall k :: n <= k < 32 ==> !Bit(w, k)
    ensures w == Pow2(n) - 1 <==> AllSet(w, n)
  {
    Pow2Values();
    Pow2Mono(n, 32);
    var ones := Pow2(n) - 1;
    forall k | 0 <= k < 32 ensures Bit(ones, k) <==> k < n {
      LowOnesBit(n, k);
    }
    if AllSet(w, n) {
      BitsDetermine(w, ones, 32);
    }
  }

  /** The final check of pb_decode_noinit on a bitmap that tracks the fields seen. */
  predicate CheckPasses(required: nat, w0: nat, w1: nat) {
    required > 0 ==>
      && (required >= 32 ==> w0 == ALLBITS)
      && (if required >= 32 then w1 else w0) == ALLBITS / Pow2(32 - required % 32)
  }

  /** It passes exactly when every required field has been seen. */
  lemma CheckIsExact(fields: seq<Field>, seen: set<nat>, w0: nat, w1: nat)
    requires Tracks(fields, seen, w0, w1) && BitmapCovers(RequiredBefore(fields, |fields|))
    ensures CheckPasses(RequiredBefore(fields, |fields|), w0, w1) <==> AllSeen(fields, seen)
  {
    var r := RequiredBefore(fields, |fields|);
    AllNumbers(fields, seen);
    forall k | r <= k < 64 ensures !MapBit(w0, w1, k) {
      NoSuchNumber(fields, seen, k);
      assert MapBit(w0, w1, k) <==> NumberSeen(fields, seen, k);
    }
    forall k | 0 <= k < r ensures MapBit(w0, w1, k) <==> NumberSeen(fields, seen, k) {
    }
    assert AllSeen(fields, seen) <==> forall k :: 0 <= k < r ==> MapBit(w0, w1, k);
    MapCheck(r, w0, w1);
  }

  /** The shifted mask is a run of low ones. */
  lemma CheckCompares(r: nat, w0: nat, w1: nat)
    requires BitmapCovers(r)
    ensures CheckPasses(r, w0, w1) <==>
            if r == 0 then true
            else if r < 32 then w0 == Pow2(r) - 1
            else w0 == ALLBITS && w1 == Pow2(r - 32) - 1
  {
    if 0 < r < 32 {
      Remainder(r, 0);
      LowOnes(r);
    } else if r > 32 {
      Remainder(r - 32, 1);
      LowOnes(r - 32);
    }
    hide Pow2;
  }

  lemma Remainder(x: nat, q: nat)
    requires x < 32
    ensures (x + 32 * q) % 32 == x
  {
  }

  /** The check on the words says that the first r bits are set. */
  lemma MapCheck(r: nat, w0: nat, w1: nat)
    requires w0 < TWO32 && w1 < TWO32 && BitmapCovers(r) && forall k :: r <= k < 64 ==> !MapBit(w0, w1, k)
    ensures CheckPasses(r, w0, w1) <==> forall k :: 0 <= k < r ==> MapBit(w0, w1, k)
  {
    CheckCompares(r, w0, w1);
    hide CheckPasses;
    if r < 32 {
      forall k | r <= k < 32 ensures !Bit(w0, k) {
        assert !MapBit(w0, w1, k);
      }
      WordIsFull(w0, r);
      OneWord(r, w0, w1);
    } else {
      forall k | r - 32 <= k < 32 ensures !Bit(w1, k) {
        assert !MapBit(w0, w1, k + 32);
      }
      Pow2Values();
      WordIsFull(w0, 32);
      WordIsFull(w1, r - 32);
      TwoWords(r, w0, w1);
    }
  }

  lemma OneWord(r: nat, w0: nat, w1: nat)
    requires r < 32
    ensures (forall k :: 0 <= k < r ==> MapBit(w0, w1, k)) <==> AllSet(w0, r)
  {
    if forall k :: 0 <= k < r ==> MapBit(w0, w1, k) {
      forall k | 0 <= k < r ensures Bit(w0, k) {
        assert MapBit(w0, w1, k);
      }
    }
  }

  lemma TwoWords(r: nat, w0: nat, w1: nat)
    requires r >= 32
    ensures (forall k :: 0 <= k < r ==> MapBit(w0, w1, k)) <==> AllSet(w0, 32) && AllSet(w1, r - 32)
  {
    if forall k :: 0 <= k < r ==> MapBit(w0, w1, k) {
      forall k | 0 <= k < 32 ensures Bit(w0, k) {
        assert MapBit(w0, w1, k);
      }
      forall k | 0 <= k < r - 32 ensures Bit(w1, k) {
        assert MapBit(w0, w1, k + 32);
      }
    }
  }
}
