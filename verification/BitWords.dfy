/** 64-bit words as rows of bits. */
module BitWords {
  // Shift amounts are kept as words; Amount is the number `b` as one.

  lemma Below(x: bv64)
    requires x < 64 && x as int < 63
    ensures x < 63
  {
    assert (63 as bv64) as int == 63;
  }

  lemma Successor(x: bv64)
    requires x < 63
    ensures x + 1 < 64 && (x + 1) as int == x as int + 1
  {
  }

  function Amount(b: nat): (x: bv64)
    requires b < 64
    ensures x < 64 && x as int == b
  {
    if b == 0 then 0
    else
      Below(Amount(b - 1));
      Successor(Amount(b - 1));
      Amount(b - 1) + 1
  }

  function Mask(b: nat): bv64
    requires b < 64
  {
    (1 as bv64) << Amount(b)
  }

  lemma ShiftsApart(x: bv64, y: bv64)
    requires x < 64 && y < 64
    ensures (1 as bv64) << x != 0
    ensures x != y ==> ((1 as bv64) << x) & ((1 as bv64) << y) == 0
  {
  }

  lemma MasksApart(b: nat, c: nat)
    requires b < 64 && c < 64
    ensures Mask(b) != 0
    ensures b != c ==> Mask(b) & Mask(c) == 0
  {
    ShiftsApart(Amount(b), Amount(c));
  }

  function And(w: bv64, m: bv64): bv64 {
    w & m
  }

  predicate Hits(w: bv64, m: bv64) {
    And(w, m) != 0
  }

  function With(w: bv64, m: bv64): bv64 {
    w | m
  }

  function Without(w: bv64, m: bv64): bv64 {
    w & !m
  }

  lemma WithHits(w: bv64, m: bv64)
    requires m != 0
    ensures Hits(With(w, m), m)
  {
  }

  lemma WithoutHits(w: bv64, m: bv64)
    ensures !Hits(Without(w, m), m)
  {
  }

  lemma OrMisses(w: bv64, m: bv64, k: bv64)
    requires m & k == 0
    ensures And(With(w, m), k) == And(w, k)
  {
  }

  lemma WithMisses(w: bv64, m: bv64, k: bv64)
    requires m & k == 0
    ensures Hits(With(w, m), k) <==> Hits(w, k)
  {
    OrMisses(w, m, k);
    hide And, With;
  }

  lemma AndNotMisses(w: bv64, m: bv64, k: bv64)
    requires m & k == 0
    ensures And(Without(w, m), k) == And(w, k)
  {
  }

  lemma WithoutMisses(w: bv64, m: bv64, k: bv64)
    requires m & k == 0
    ensures Hits(Without(w, m), k) <==> Hits(w, k)
  {
    AndNotMisses(w, m, k);
    hide And, Without;
  }

  /** Bit `i` of a row of words. */
  predicate TestBit(words: seq<bv64>, i: nat)
    requires i / 64 < |words|
  {
    Hits(words[i / 64], Mask(i % 64))
  }

  function SetBit(words: seq<bv64>, i: nat): seq<bv64>
    requires i / 64 < |words|
  {
    words[i / 64 := With(words[i / 64], Mask(i % 64))]
  }

  function ClearBit(words: seq<bv64>, i: nat): seq<bv64>
    requires i / 64 < |words|
  {
    words[i / 64 := Without(words[i / 64], Mask(i % 64))]
  }

  lemma NoBits(words: seq<bv64>, i: nat)
    requires i / 64 < |words| && words[i / 64] == 0
    ensures !TestBit(words, i)
  {
    hide Mask;
  }

  /** Setting or clearing a bit changes that bit and no other one of any word. */
  lemma BitsIndependent(words: seq<bv64>, i: nat, j: nat)
    requires i / 64 < |words| && j / 64 < |words|
    ensures TestBit(SetBit(words, i), j) <==> j == i || TestBit(words, j)
    ensures TestBit(ClearBit(words, i), j) <==> j != i && TestBit(words, j)
  {
    hide Mask, Hits, With, Without;
    MasksApart(i % 64, j % 64);
    var w, m, k := words[i / 64], Mask(i % 64), Mask(j % 64);
    if i == j {
      WithHits(w, m);
      WithoutHits(w, m);
    } else if i / 64 == j / 64 {
      WithMisses(w, m, k);
      WithoutMisses(w, m, k);
    }
  }
}
