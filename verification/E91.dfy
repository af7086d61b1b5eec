/**
The entanglement-based key distribution channel: measurements, the correlation test and key sifting.
The photon angles only feed the probability of a random draw, so the draw itself is a parameter.
*/
module E91 {
  import opened Optional

  const ENTANGLED_PAIRS: nat := 1024

  datatype Basis = Rectilinear | Diagonal | Circular

  type Bases = (Basis, Basis)

  datatype Pair = Pair(alice: int, bob: int)

  const UNMEASURED: Pair := Pair(0, 0)

  function Product(p: Pair): int { p.alice * p.bob }

  /** The three combinations of bases for which a measurement draws a result. */
  predicate Drawn(b: Bases) {
    b == (Rectilinear, Diagonal) || b == (Diagonal, Circular) || b == (Circular, Rectilinear)
  }

  function Measured(b: Bases, draw: bool): Pair {
    if !Drawn(b) then UNMEASURED else if draw then Pair(1, -1) else Pair(-1, 1)
  }

  /** A pair is unmeasured or anti-correlated, and then its bases are on record. */
  ghost predicate Consistent(pairs: seq<Pair>, bases: map<nat, Bases>) {
    && (forall i :: i in bases ==> i < |pairs|)
    && (forall i :: 0 <= i < |pairs| && pairs[i] != UNMEASURED ==>
                      i in bases && Drawn(bases[i]) && Product(pairs[i]) == -1)
  }

  /** Every pair on record with drawing bases still has its result: pairs were generated only once. */
  ghost predicate Complete(pairs: seq<Pair>, bases: map<nat, Bases>) {
    forall i :: i in bases && i < |pairs| && Drawn(bases[i]) ==> pairs[i] != UNMEASURED
  }

  // ---------------------------------------------------------------- key bits

  /** `alice_result as u8 & 1`. */
  function Bit(result: int): nat { result % 2 }

  /** The bits as a number, most significant first. */
  function Value(bits: seq<nat>): nat {
    if bits == [] then 0 else 2 * Value(bits[..|bits| - 1]) + bits[|bits| - 1]
  }

  /** Whole bytes of the bits; what does not fill a byte is dropped. */
  function Pack(bits: seq<nat>): seq<nat> {
    if |bits| < 8 then [] else [Value(bits[..8])] + Pack(bits[8..])
  }

  /** The bits of a number, most significant first. */
  function BitsOf(n: nat, width: nat): (bits: seq<nat>)
    ensures |bits| == width
    decreases width
  {
    if width == 0 then [] else BitsOf(n / 2, width - 1) + [n % 2]
  }

  function Unpack(bytes: seq<nat>): seq<nat> {
    if bytes == [] then [] else BitsOf(bytes[0], 8) + Unpack(bytes[1..])
  }

  ghost predicate AreBits(bits: seq<nat>) {
    forall i :: 0 <= i < |bits| ==> bits[i] < 2
  }

  lemma {:induction false} BitsOfValue(bits: seq<nat>)
    requires AreBits(bits)
    ensures BitsOf(Value(bits), |bits|) == bits
  {
    if bits != [] {
      BitsOfValue(bits[..|bits| - 1]);
      assert bits == bits[..|bits| - 1] + [bits[|bits| - 1]];
    }
  }

  lemma {:induction false} PackLength(bits: seq<nat>)
    ensures 8 * |Pack(bits)| <= |bits| < 8 * |Pack(bits)| + 8
    decreases |bits|
  {
    if |bits| >= 8 { PackLength(bits[8..]); }
  }

  /** Unpacking the key gives back the first whole bytes of the sifted bits; fewer than 8 are dropped. */
  lemma {:induction false} UnpackPack(bits: seq<nat>)
    requires AreBits(bits)
    ensures 8 * |Pack(bits)| <= |bits| < 8 * |Pack(bits)| + 8
    ensures Unpack(Pack(bits)) == bits[..8 * |Pack(bits)|]
    decreases |bits|
  {
    hide BitsOf, Value, Pack, Unpack;
    PackLength(bits);
    UnpackStep(bits);
    if |bits| >= 8 {
      UnpackPack(bits[8..]);
      BitsOfValue(bits[..8]);
      JoinBytes(bits, |Pack(bits[8..])|);
    }
  }

  lemma UnpackStep(bits: seq<nat>)
    ensures |bits| < 8 ==> Pack(bits) == [] && Unpack(Pack(bits)) == []
    ensures |bits| >= 8 ==>
              && |Pack(bits)| == 1 + |Pack(bits[8..])|
              && Unpack(Pack(bits)) == BitsOf(Value(bits[..8]), 8) + Unpack(Pack(bits[8..]))
  {
    hide BitsOf, Value;
    if |bits| >= 8 {
      var key := Pack(bits[8..]);
      assert Pack(bits) == [Value(bits[..8])] + key && ([Value(bits[..8])] + key)[1..] == key;
    }
  }

  lemma JoinBytes(bits: seq<nat>, n: nat)
    requires 8 + 8 * n <= |bits|
    ensures bits[..8] + bits[8..][..8 * n] == bits[..8 * (1 + n)]
  {}

  lemma {:induction false} PackMore(bits: seq<nat>, byte: seq<nat>)
    requires |bits| % 8 == 0 && |byte| == 8
    ensures Pack(bits + byte) == Pack(bits) + [Value(byte)]
    decreases |bits|
  {
    if bits == [] {
      assert (bits + byte)[..8] == byte && (bits + byte)[8..] == [];
    } else {
      assert (bits + byte)[..8] == bits[..8] && (bits + byte)[8..] == bits[8..] + byte;
      PackMore(bits[8..], byte);
    }
  }

  /** The results of pairs that both sides measured rectilinearly. */
  function Sifted(pairs: seq<Pair>, bases: map<nat, Bases>): seq<nat> {
    if pairs == [] then []
    else
      var k := |pairs| - 1;
      Sifted(pairs[..k], bases) +
      if k in bases && bases[k] == (Rectilinear, Rectilinear) then [Bit(pairs[k].alice)] else []
  }

  /** `at` lists, in order, the pairs that both sides measured rectilinearly. */
  ghost predicate SiftPositions(pairs: seq<Pair>, bases: map<nat, Bases>, at: seq<nat>) {
    && (forall i :: 0 <= i < |at| ==> at[i] < |pairs|)
    && (forall i, j :: 0 <= i < j < |at| ==> at[i] < at[j])
    && (forall k: nat :: k in at <==> k < |pairs| && k in bases && bases[k].0 == bases[k].1 == Rectilinear)
  }

  /** The sifted bits are Alice's results of those pairs, odd for a draw and even for none. */
  lemma {:induction false} SiftedInOrder(pairs: seq<Pair>, bases: map<nat, Bases>) returns (at: seq<nat>)
    ensures SiftPositions(pairs, bases, at) && |Sifted(pairs, bases)| == |at|
    ensures forall i :: 0 <= i < |at| ==> Sifted(pairs, bases)[i] == if pairs[at[i]].alice % 2 == 0 then 0 else 1
  {
    at := [];
    if pairs != [] {
      hide SiftPositions;
      var k := |pairs| - 1;
      var before := SiftedInOrder(pairs[..k], bases);
      at := before + if k in bases && bases[k] == (Rectilinear, Rectilinear) then [k] else [];
      PositionsOneMore(pairs, bases, before, at);
    }
  }

  lemma PositionsOneMore(pairs: seq<Pair>, bases: map<nat, Bases>, before: seq<nat>, at: seq<nat>)
    requires pairs != [] && SiftPositions(pairs[..|pairs| - 1], bases, before)
    requires var k := |pairs| - 1; at == before + if k in bases && bases[k] == (Rectilinear, Rectilinear) then [k] else []
    ensures SiftPositions(pairs, bases, at)
    ensures forall i :: 0 <= i < |before| ==> before[i] < |pairs| - 1 && at[i] == before[i]
    ensures forall i :: 0 <= i < |before| ==> pairs[..|pairs| - 1][before[i]] == pairs[before[i]]
  {}

  lemma SiftStep(pairs: seq<Pair>, bases: map<nat, Bases>, i: nat)
    requires i < |pairs|
    ensures Sifted(pairs[..i + 1], bases) ==
            Sifted(pairs[..i], bases) +
            if i in bases && bases[i] == (Rectilinear, Rectilinear) then [Bit(pairs[i].alice)] else []
  {
    assert pairs[..i + 1][..i] == pairs[..i];
  }

  lemma ValueStep(bits: seq<nat>, bit: nat)
    ensures Value(bits + [bit]) == 2 * Value(bits) + bit
  {
    assert (bits + [bit])[..|bits|] == bits;
  }

  lemma NoBits(pairs: seq<Pair>, bases: map<nat, Bases>)
    ensures Sifted(pairs[..0], bases) == [] && Pack([]) == [] && Value([]) == 0
  {}

  lemma {:induction false} SiftedIsZero(pairs: seq<Pair>, bases: map<nat, Bases>)
    requires forall i :: 0 <= i < |pairs| && i in bases && bases[i] == (Rectilinear, Rectilinear) ==> pairs[i] == UNMEASURED
    ensures forall i :: 0 <= i < |Sifted(pairs, bases)| ==> Sifted(pairs, bases)[i] == 0
  {
    if pairs != [] { SiftedIsZero(pairs[..|pairs| - 1], bases); }
  }

  lemma {:induction false} ZerosPack(bits: seq<nat>)
    requires forall i :: 0 <= i < |bits| ==> bits[i] == 0
    ensures forall i :: 0 <= i < |Pack(bits)| ==> Pack(bits)[i] == 0
    decreases |bits|
  {
    if |bits| >= 8 {
      ZerosValue(bits[..8]);
      ZerosPack(bits[8..]);
    }
  }

  lemma {:induction false} ZerosValue(bits: seq<nat>)
    requires forall i :: 0 <= i < |bits| ==> bits[i] == 0
    ensures Value(bits) == 0
  {
    if bits != [] { ZerosValue(bits[..|bits| - 1]); }
  }

  // ---------------------------------------------------------------- correlation

  /** Pairs that count in the correlation, and those among them with an anti-correlated result. */
  ghost function Counted(bases: map<nat, Bases>): set<nat> {
    set i | i in bases && bases[i] == (Rectilinear, Diagonal)
  }

  lemma CountedNone(bases: map<nat, Bases>)
    ensures |Counted(bases)| == 0 <==> forall i :: i in bases ==> bases[i].0 != Rectilinear || bases[i].1 != Diagonal
  {
    if |Counted(bases)| == 0 {
      forall i | i in bases ensures bases[i].0 != Rectilinear || bases[i].1 != Diagonal { assert i !in Counted(bases); }
    } else {
      assert exists i :: i in Counted(bases);
    }
  }

  ghost function Anticorrelated(pairs: seq<Pair>, bases: map<nat, Bases>): set<nat> {
    set i | i in Counted(bases) && i < |pairs| && pairs[i] != UNMEASURED
  }

  lemma VisitOne(s: set<nat>, left: set<nat>, i: nat)
    requires i in left
    ensures |s - (left - {i})| == |s - left| + if i in s then 1 else 0
  {
    if i in s {
      assert s - (left - {i}) == (s - left) + {i};
    } else {
      assert s - (left - {i}) == s - left;
    }
  }

  lemma ProductOf(pairs: seq<Pair>, bases: map<nat, Bases>, i: nat)
    requires Consistent(pairs, bases) && i in Counted(bases)
    ensures i < |pairs| && Product(pairs[i]) == if i in Anticorrelated(pairs, bases) then -1 else 0
  {}

  /** The loop over the recorded bases: the sum of the products and the number of pairs counted. */
  method SumCorrelation(pairs: seq<Pair>, bases: map<nat, Bases>) returns (chsh: int, valid: nat)
    requires Consistent(pairs, bases)
    ensures valid == |Counted(bases)| && chsh == -|Anticorrelated(pairs, bases)|
  {
    hide Anticorrelated, Product, Consistent;
    chsh, valid := 0, 0;
    var left := bases.Keys;
    ghost var all, hits := Counted(bases), Anticorrelated(pairs, bases);
    assert hits <= all by { HitsAreCounted(pairs, bases); }
    assert all - left == {} && hits - left == {};
    while left != {}
      invariant left <= bases.Keys
      invariant valid == |all - left| && chsh == -|hits - left|
      decreases left
    {
      var i :| i in left;
      VisitOne(all, left, i);
      VisitOne(hits, left, i);
      left := left - {i};
      if bases[i] == (Rectilinear, Diagonal) {
        ProductOf(pairs, bases, i);
        chsh := chsh + Product(pairs[i]);
        valid := valid + 1;
      }
    }
    assert all - {} == all && hits - {} == hits;
  }

  lemma HitsAreCounted(pairs: seq<Pair>, bases: map<nat, Bases>)
    ensures Anticorrelated(pairs, bases) <= Counted(bases)
  {}

  lemma CountedBounds(pairs: seq<Pair>, bases: map<nat, Bases>)
    requires Consistent(pairs, bases)
    ensures |Anticorrelated(pairs, bases)| <= |Counted(bases)|
    ensures Complete(pairs, bases) ==> |Anticorrelated(pairs, bases)| == |Counted(bases)|
  {
    var all, hits := Counted(bases), Anticorrelated(pairs, bases);
    assert all == hits + (all - hits);
    if Complete(pairs, bases) { assert hits == all; }
  }

  // ---------------------------------------------------------------- the channel

  class E91Channel {
    var pairs: seq<Pair>
    var bases: map<nat, Bases>

    ghost predicate Valid()
      reads this
    {
      Consistent(pairs, bases) && (|pairs| == 0 || |pairs| == ENTANGLED_PAIRS)
    }

    constructor ()
      ensures Valid() && pairs == [] && bases == map[]
    {
      pairs, bases := [], map[];
    }

    /** New pairs; bases recorded for earlier ones stay on record. */
    method GenerateEntangledPairs()
      requires Valid()
      modifies this
      ensures Valid() && bases == old(bases) && pairs == seq(ENTANGLED_PAIRS, _ => UNMEASURED)
      ensures |pairs| == 1024 && (bases == map[] ==> Complete(pairs, bases))
    {
      pairs := seq(ENTANGLED_PAIRS, _ => UNMEASURED);
    }

    method MeasurePair(index: nat, a: Basis, b: Basis, draw: bool) returns (ok: bool)
      requires Valid()
      modifies this
      ensures Valid() && (ok <==> index < |old(pairs)|)
      ensures pairs == if ok then old(pairs)[index := Measured((a, b), draw)] else old(pairs)
      ensures bases == if ok then old(bases)[index := (a, b)] else old(bases)
      ensures old(Complete(pairs, bases)) ==> Complete(pairs, bases)
      ensures ok ==>
                match (a, b)
                case (Rectilinear, Diagonal) | (Diagonal, Circular) | (Circular, Rectilinear) =>
                  pairs[index] == if draw then Pair(1, -1) else Pair(-1, 1)
                case _ => pairs[index] == Pair(0, 0)
    {
      if index >= |pairs| { return false; }
      pairs := pairs[index := Measured((a, b), draw)];
      bases := bases[index := (a, b)];
      return true;
    }

    /** The averaged correlation is minus the fraction of counted pairs that have a result, so it never
        exceeds a threshold of 1 or more in absolute value, such as the square root of 2, and the test always
        fails; with no counted pair the average is not a number and the test fails as well. */
    method VerifyBellInequality(threshold: real) returns (accepted: bool, average: Option<real>)
      requires Valid() && threshold >= 1.0
      ensures !accepted
      ensures average.None? <==> |Counted(bases)| == 0
      ensures average.None? <==> forall i :: i in bases ==> bases[i].0 != Rectilinear || bases[i].1 != Diagonal
      ensures average.Some? ==>
                && average.value * |Counted(bases)| as real == -(|Anticorrelated(pairs, bases)| as real)
                && -1.0 <= average.value <= 0.0
                && (Complete(pairs, bases) ==> average.value == -1.0)
    {
      CountedNone(bases);
      var chsh, valid := SumCorrelation(pairs, bases);
      if valid == 0 {
        return false, None;
      }
      var value := chsh as real / valid as real;
      CountedBounds(pairs, bases);
      Quotient(chsh, valid);
      accepted := value > threshold || -value > threshold;
      average := Some(value);
    }

    /** The key is the packed sifted bits; a pair without recorded bases stops it. */
    method GenerateKey() returns (key: Option<seq<nat>>)
      requires Valid()
      ensures key.Some? <==> forall i :: 0 <= i < |pairs| ==> i in bases
      ensures key.Some? ==> key.value == Pack(Sifted(pairs, bases))
      ensures key.Some? ==> forall i :: 0 <= i < |key.value| ==> key.value[i] == 0
    {
      hide Pack, Value, Sifted, Bit;
      var bytes: seq<nat> := [];
      var buffer, count := 0, 0;
      ghost var done, partial: seq<nat> := [], [];
      NoBits(pairs, bases);
      for i := 0 to |pairs|
        invariant forall j :: 0 <= j < i ==> j in bases
        invariant done + partial == Sifted(pairs[..i], bases)
        invariant |done| % 8 == 0 && |partial| == count < 8
        invariant bytes == Pack(done) && buffer == Value(partial)
      {
        if i !in bases { return None; }
        SiftStep(pairs, bases, i);
        if bases[i] == (Rectilinear, Rectilinear) {
          var bit := Bit(pairs[i].alice);
          ValueStep(partial, bit);
          buffer := 2 * buffer + bit;
          count := count + 1;
          partial := partial + [bit];
          if count == 8 {
            PackMore(done, partial);
            bytes := bytes + [buffer];
            done, partial := done + partial, [];
            buffer, count := 0, 0;
          }
        }
      }
      assert pairs[..|pairs|] == pairs;
      PackRest(done, partial);
      SiftedIsZero(pairs, bases);
      ZerosPack(Sifted(pairs, bases));
      key := Some(bytes);
    }
  }

  lemma {:induction false} PackRest(done: seq<nat>, partial: seq<nat>)
    requires |done| % 8 == 0 && |partial| < 8
    ensures Pack(done + partial) == Pack(done)
    decreases |done|
  {
    if done == [] {
      assert done + partial == partial;
    } else {
      assert (done + partial)[..8] == done[..8] && (done + partial)[8..] == done[8..] + partial;
      PackRest(done[8..], partial);
    }
  }

  lemma Quotient(chsh: int, valid: int)
    requires valid > 0 && -valid <= chsh <= 0
    ensures var q := chsh as real / valid as real;
            q * valid as real == chsh as real && -1.0 <= q <= 0.0 && (chsh == -valid ==> q == -1.0)
  {}
}
