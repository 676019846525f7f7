/** Words used as rows of flags. */
module Bits {
  import opened Powers

  /** The word w with bit j set. */
  function WithBit(w: nat, j: nat): nat {
    if w / Pow2(j) % 2 == 1 then w else w + Pow2(j)
  }

  /** Places of the set bits of w, lowest first, when the lowest bit has place base. */
  function SetBits(w: nat, base: nat): (r: seq<nat>)
    ensures forall i :: i in r ==> base <= i
  {
    if w == 0 then []
    else if w % 2 == 1 then [base] + SetBits(w / 2, base + 1)
    else SetBits(w / 2, base + 1)
  }

  function PopCount(w: nat): nat {
    if w == 0 then 0 else w % 2 + PopCount(w / 2)
  }

  lemma {:induction false} CountSetBits(w: nat, base: nat)
    ensures |SetBits(w, base)| == PopCount(w)
    decreases w
  {
    if w > 0 {
      CountSetBits(w / 2, base + 1);
    }
  }

  lemma HighBitClear(w: nat, n: nat)
    requires w < Pow2(n)
    ensures WithBit(w, n) == w + Pow2(n)
  {
    hide Pow2;
    QuotientRange(w, Pow2(n), 0, 1);
  }

  /** A bit above all others comes last. */
  lemma {:induction false} SetHighBit(w: nat, n: nat, base: nat)
    requires w < Pow2(n)
    ensures SetBits(w + Pow2(n), base) == SetBits(w, base) + [base + n]
  {
    if n == 0 {
      assert SetBits(1, base) == [base] + SetBits(0, base + 1);
    } else {
      var half := Pow2(n - 1);
      SetHighBit(w / 2, n - 1, base + 1);
      assert (w + 2 * half) / 2 == w / 2 + half && (w + 2 * half) % 2 == w % 2;
    }
  }

  /** Word with a bit set for each of the first n flags. */
  function Packed(flags: seq<bool>, n: nat): (w: nat)
    requires n <= |flags|
    ensures w < Pow2(n)
  {
    if n == 0 then 0 else Packed(flags, n - 1) + (if flags[n - 1] then Pow2(n - 1) else 0)
  }

  /** Places of the flags that are set among the first n, with the first flag at place base. */
  function Raised(flags: seq<bool>, n: nat, base: nat): seq<nat>
    requires n <= |flags|
  {
    if n == 0 then [] else Raised(flags, n - 1, base) + (if flags[n - 1] then [base + n - 1] else [])
  }

  /** Packing flags into a word and listing its bits lists the flags. */
  lemma {:induction false} PackedBits(flags: seq<bool>, n: nat, base: nat)
    requires n <= |flags|
    ensures SetBits(Packed(flags, n), base) == Raised(flags, n, base)
  {
    if n > 0 {
      PackedBits(flags, n - 1, base);
      if flags[n - 1] {
        SetHighBit(Packed(flags, n - 1), n - 1, base);
      } else {
        assert Raised(flags, n - 1, base) + [] == Raised(flags, n - 1, base);
      }
    }
  }

  ghost predicate AllBelow(s: seq<nat>, m: nat) {
    forall i :: i in s ==> i < m
  }

  /** A word is below 2 to the n exactly if none but its n lowest bits are set. */
  lemma {:induction false} SetBitsBelow(w: nat, n: nat, base: nat)
    ensures w < Pow2(n) <==> AllBelow(SetBits(w, base), base + n)
    decreases w
  {
    if w > 0 {
      if n == 0 {
        AnyBit(w, base);
      } else {
        SetBitsBelow(w / 2, n - 1, base + 1);
        assert w < Pow2(n) <==> w / 2 < Pow2(n - 1);
        assert AllBelow(SetBits(w, base), base + n) <==> AllBelow(SetBits(w / 2, base + 1), base + n) by {
          var rest := SetBits(w / 2, base + 1);
          if w % 2 == 1 {
            assert SetBits(w, base) == [base] + rest;
            assert forall i :: i in rest ==> i in [base] + rest;
          }
        }
      }
    }
  }

  lemma {:induction false} AnyBit(w: nat, base: nat)
    requires w > 0
    ensures exists i :: i in SetBits(w, base) && base <= i
    decreases w
  {
    if w % 2 == 1 {
      assert base in SetBits(w, base);
    } else {
      AnyBit(w / 2, base + 1);
    }
  }

  // ---------- flags in rows of 32 ----------

  function Flag(flags: seq<bool>, i: nat): bool {
    i < |flags| && flags[i]
  }

  /** The flags of row b. */
  function Row(flags: seq<bool>, b: nat): (f: seq<bool>)
    ensures |f| == 32 && forall j :: 0 <= j < 32 ==> f[j] == Flag(flags, 32 * b + j)
  {
    seq(32, j requires 0 <= j < 32 => Flag(flags, 32 * b + j))
  }

  function RowWord(flags: seq<bool>, b: nat): Word {
    Pow2At64();
    Packed(Row(flags, b), 32)
  }

  function RowWords(flags: seq<bool>, n: nat): (r: seq<Word>)
    ensures |r| == n
  {
    if n == 0 then [] else RowWords(flags, n - 1) + [RowWord(flags, n - 1)]
  }

  /** Places of the bits that are set in word b and the words after it. */
  function BitsFrom(words: seq<Word>, b: nat): seq<nat>
    requires b <= |words|
    decreases |words| - b
  {
    if b == |words| then [] else SetBits(words[b], 32 * b) + BitsFrom(words, b + 1)
  }

  /** Places below n of the flags that are set. */
  function Places(flags: seq<bool>, n: nat): seq<nat> {
    if n == 0 then [] else Places(flags, n - 1) + (if Flag(flags, n - 1) then [n - 1] else [])
  }

  lemma {:induction false} PlacesOfRow(flags: seq<bool>, b: nat, n: nat)
    requires n <= 32
    ensures Places(flags, 32 * b + n) == Places(flags, 32 * b) + Raised(Row(flags, b), n, 32 * b)
  {
    if n > 0 {
      PlacesOfRow(flags, b, n - 1);
      assert Row(flags, b)[n - 1] == Flag(flags, 32 * b + n - 1);
    }
  }

  lemma {:induction false} NthRow(flags: seq<bool>, n: nat, b: nat)
    requires b < n
    ensures RowWords(flags, n)[b] == RowWord(flags, b)
  {
    if b < n - 1 {
      NthRow(flags, n - 1, b);
    }
  }

  lemma RowPlaces(flags: seq<bool>, b: nat)
    ensures Places(flags, 32 * (b + 1)) == Places(flags, 32 * b) + SetBits(RowWord(flags, b), 32 * b)
  {
    hide Packed, Raised, SetBits, Places, Row;
    PackedBits(Row(flags, b), 32, 32 * b);
    PlacesOfRow(flags, b, 32);
  }

  lemma {:induction false} BitsArePlaces(flags: seq<bool>, n: nat, b: nat)
    requires b <= n
    ensures Places(flags, 32 * b) + BitsFrom(RowWords(flags, n), b) == Places(flags, 32 * n)
    decreases n - b
  {
    hide RowWord, Places, SetBits, RowWords;
    var words := RowWords(flags, n);
    if b < n {
      NthRow(flags, n, b);
      RowPlaces(flags, b);
      BitsArePlaces(flags, n, b + 1);
      assert Places(flags, 32 * b) + (SetBits(words[b], 32 * b) + BitsFrom(words, b + 1))
          == (Places(flags, 32 * b) + SetBits(words[b], 32 * b)) + BitsFrom(words, b + 1);
    } else {
      assert Places(flags, 32 * b) + [] == Places(flags, 32 * b);
    }
  }

  lemma {:induction false} NoPlacesBeyond(flags: seq<bool>, n: nat)
    requires |flags| <= n
    ensures Places(flags, n) == Places(flags, |flags|)
  {
    if |flags| < n {
      NoPlacesBeyond(flags, n - 1);
    }
  }

  lemma {:induction false} PlacesBelow(flags: seq<bool>, n: nat)
    ensures AllBelow(Places(flags, n), n)
  {
    if n > 0 {
      PlacesBelow(flags, n - 1);
    }
  }

  lemma {:induction false} PlacesAreFlags(flags: seq<bool>, n: nat, i: nat)
    ensures i in Places(flags, n) <==> i < n && Flag(flags, i)
  {
    if n > 0 {
      PlacesAreFlags(flags, n - 1, i);
    }
  }

  /** The bits of the rows, in order, are the flags that were packed. */
  lemma RowsRoundTrip(flags: seq<bool>, n: nat)
    requires |flags| <= 32 * n
    ensures BitsFrom(RowWords(flags, n), 0) == Places(flags, |flags|)
  {
    hide BitsFrom, RowWords;
    BitsArePlaces(flags, n, 0);
    NoPlacesBeyond(flags, 32 * n);
    assert Places(flags, 0) == [];
  }
}
