/** The bitmap in which pb_decode_noinit records the required fields it has seen. */
module RequiredFields {
  import opened Bits

  /** The words hold exactly the numbers in `seen`. */
  ghost predicate Holds(words: seq<nat>, seen: set<nat>) {
    && (forall i :: 0 <= i < |words| ==> words[i] < U32)
    && (forall k: nat :: k < 32 * |words| ==> (Bit(words[k / 32], k % 32) <==> k in seen))
    && (forall k :: k in seen ==> k < 32 * |words|)
  }

  /** `x >> n`. */
  function Shr(x: nat, n: nat): nat {
    if n == 0 then x else Shr(x / 2, n - 1)
  }

  lemma {:induction false} ShrOnes(n: nat, k: nat)
    ensures Shr(Pow2(n + k) - 1, k) == Pow2(n) - 1
  {
    if k > 0 {
      assert (Pow2(n + k) - 1) / 2 == Pow2(n + k - 1) - 1;
      ShrOnes(n, k - 1);
    }
  }

  lemma NoneHeld()
    ensures Holds([0, 0], {})
  {
    forall k: nat | k < 64 ensures !Bit([0, 0][k / 32], k % 32) { ZeroBits(k % 32); }
  }

  /** `fields_seen[k >> 5] |= 1 << (k & 31)`. */
  method MarkSeen(words: array<nat>, k: nat, ghost seen: set<nat>)
    requires k < 32 * words.Length && Holds(words[..], seen)
    modifies words
    ensures Holds(words[..], seen + {k})
  {
    var w := k / 32;
    var tmp := Shl(1, k % 32);
    Marked(words[w], k % 32);
    words[w] := Or(words[w], tmp);
    forall j: nat | j < 32 * words.Length ensures Bit(words[j / 32], j % 32) <==> j in seen + {k} {
      if j / 32 == w {
        MarkedBit(old(words[w]), k % 32, j % 32);
      }
    }
  }

  lemma Marked(x: nat, b: nat)
    requires x < U32 && b < 32
    ensures Or(x, Shl(1, b)) < U32
  {
    Pow2At32();
    Pow2Mono(b, 32);
    OrBound(x, Pow2(b), 32);
  }

  lemma MarkedBit(x: nat, b: nat, c: nat)
    ensures Bit(Or(x, Shl(1, b)), c) <==> Bit(x, c) || b == c
  {
    OrBits(x, Pow2(b), c);
    Pow2Bits(b, c);
  }

  /** A whole word is all ones exactly when its 32 numbers are in the set. */
  lemma WholeWord(words: seq<nat>, seen: set<nat>, w: nat)
    requires Holds(words, seen) && w < |words|
    ensures words[w] == U32 - 1 <==> forall k: nat :: 32 * w <= k < 32 * w + 32 ==> k in seen
  {
    TailWord(words, seen, w, 32);
  }

  /** The first `n` bits of a word with no other bits are all set exactly when it equals
      the mask. */
  lemma TailWord(words: seq<nat>, seen: set<nat>, w: nat, n: nat)
    requires Holds(words, seen) && w < |words| && n <= 32
    requires forall k :: k in seen ==> k < 32 * w + n || 32 * (w + 1) <= k
    ensures words[w] == Pow2(n) - 1 <==> forall k: nat :: 32 * w <= k < 32 * w + n ==> k in seen
    ensures n == 32 ==> Pow2(n) == U32
  {
    Pow2At32();
    var x := words[w];
    forall b: nat | b < 32 ensures Bit(x, b) <==> 32 * w + b in seen {
      assert (32 * w + b) / 32 == w && (32 * w + b) % 32 == b;
    }
    BitsBound(x, n, 32);
    MaskBits(x, n);
    if LowOnes(x, n) {
      forall k: nat | 32 * w <= k < 32 * w + n ensures k in seen { assert Bit(x, k - 32 * w); }
    } else {
      var b: nat :| b < n && !Bit(x, b);
      assert 32 * w + b !in seen;
    }
  }

  /** The final check: whole words against all ones, the rest against a mask. It
      succeeds exactly when the first `count` numbers have all been recorded. */
  method CheckSeen(words: array<nat>, count: nat, ghost seen: set<nat>) returns (ok: bool)
    requires Holds(words[..], seen) && count <= 32 * words.Length
    requires forall k :: k in seen ==> k < count
    ensures ok <==> forall k: nat :: k < count ==> k in seen
  {
    var i := 0;
    while i < count / 32
      invariant i <= count / 32
      invariant forall k: nat :: k < 32 * i ==> k in seen
    {
      WholeWord(words[..], seen, i);
      if words[i] != U32 - 1 { return false; }
      i := i + 1;
    }
    var n := count % 32;
    if n != 0 {
      TailWord(words[..], seen, i, n);
      Pow2At32();
      ShrOnes(n, 32 - n);
      if words[i] != Shr(U32 - 1, 32 - n) { return false; }
    }
    return true;
  }
}
