/** Moving lane boundaries: what a bitcast does to the patterns a reader can answer for. */
module ConstantBits {
  import opened Wrappers
  import opened Layout
  import opened Powers
  import opened ConstantValues

  lemma BitPlace(k: nat, w: nat, r: nat)
    requires r < w
    ensures (k * w + r) / w == k && (k * w + r) % w == r
  {
    ModUnique(k * w + r, w, k, r);
  }

  lemma InLane(p: nat, w: nat, n: nat)
    requires w > 0 && p < n * w
    ensures p / w < n
    ensures p == (p / w) * w + p % w
  {
    if p / w >= n {
      NonNegative(p / w - n, w);
    }
  }

  lemma BelowTotal(k: nat, n: nat, w: nat, r: nat)
    requires k < n && r < w
    ensures k * w + r < n * w
  {
    assert (n - k - 1) * w >= 0;
    assert n * w == (n - k - 1) * w + k * w + w;
  }

  lemma {:induction false} NumberOfSame(n: nat, b: bool)
    ensures NumberOf(seq(n, _ => b)) == if b then Pow2(n) - 1 else 0
  {
    if n > 0 {
      NumberOfSame(n - 1, b);
      assert seq(n, _ => b)[1..] == seq(n - 1, _ => b);
    }
  }

  lemma {:induction false} UniformBits(w: nat, i: nat)
    ensures BitOf(0, i) == false
    ensures i < w ==> BitOf(Pow2(w) - 1, i) == true
  {
    if i > 0 {
      UniformBits(if w > 0 then w - 1 else 0, i - 1);
      if i < w {
        assert (Pow2(w) - 1) / 2 == Pow2(w - 1) - 1;
      }
    }
  }

  lemma BitSame(e: Target, v: Value, w: nat, k: nat, i: nat)
    requires i < w
    ensures RecutBit(e, v, w, w, k, i) == if Lane(v, k).Bits? then Some(BitOf(Lane(v, k).n, i)) else None
  {
    BitPlace(k, w, Place(e, w, i));
  }

  lemma Assembled(bits: seq<Option<bool>>, values: seq<bool>)
    requires |bits| == |values| && forall i :: 0 <= i < |bits| ==> bits[i] == Some(values[i])
    ensures Assemble(bits) == Bits(NumberOf(values))
  {
    forall i | 0 <= i < |bits| ensures KnownBits(bits)[i] == values[i] {
      assert bits[i] == Some(values[i]);
    }
    assert KnownBits(bits) == values;
  }

  /** Where the boundaries stay, so do the lanes. */
  lemma RecutSame(e: Target, v: Value, w: nat, k: nat)
    requires w > 0 && OfType(e, Lane(v, k), Integer(w))
    ensures Recut(e, v, w, w, k) == Lane(v, k)
  {
    var lane, bits := Lane(v, k), RecutBits(e, v, w, w, k);
    BitSame(e, v, w, k, 0);
    if lane.Bits? {
      forall i | 0 <= i < w ensures bits[i] == Some(BitsOf(lane.n, w)[i]) {
        BitSame(e, v, w, k, i);
      }
      Assembled(bits, BitsOf(lane.n, w));
      BitsRoundTrip(lane.n, w);
    } else {
      assert bits[0].None?;
    }
  }

  lemma UniformAt(e: Target, v: Value, count: nat, w: nat, p: nat, lane: Value, b: bool)
    requires w > 0 && p < count * w
    requires forall j :: 0 <= j < count ==> Lane(v, j) == lane
    requires lane == Poison || lane == Bits(if b then Pow2(w) - 1 else 0)
    ensures BitAt(e, v, w, p) == if lane.Bits? then Some(b) else None
  {
    InLane(p, w, count);
    assert Lane(v, p / w) == lane;
    UniformBits(w, Place(e, w, p % w));
  }

  lemma BitUniform(e: Target, v: Value, count: nat, from: nat, to: nat, k: nat, lane: Value, b: bool, i: nat)
    requires from > 0 && i < to && (k + 1) * to <= count * from
    requires forall j :: 0 <= j < count ==> Lane(v, j) == lane
    requires lane == Poison || lane == Bits(if b then Pow2(from) - 1 else 0)
    ensures RecutBit(e, v, from, to, k, i) == if lane.Bits? then Some(b) else None
  {
    BelowTotal(k, k + 1, to, Place(e, to, i));
    UniformAt(e, v, count, from, k * to + Place(e, to, i), lane, b);
  }

  /** One bit everywhere stays that bit, wherever the boundaries fall; poison likewise. */
  lemma RecutUniform(e: Target, v: Value, count: nat, from: nat, to: nat, k: nat, lane: Value, b: bool)
    requires from > 0 && to > 0 && (k + 1) * to <= count * from
    requires forall j :: 0 <= j < count ==> Lane(v, j) == lane
    requires lane == Poison || lane == Bits(if b then Pow2(from) - 1 else 0)
    ensures Recut(e, v, from, to, k) == if lane.Poison? then Poison else Bits(if b then Pow2(to) - 1 else 0)
  {
    var bits := RecutBits(e, v, from, to, k);
    forall i | 0 <= i < to ensures bits[i] == if lane.Bits? then Some(b) else None {
      BitUniform(e, v, count, from, to, k, lane, b, i);
    }
    if lane.Bits? {
      Assembled(bits, seq(to, _ => b));
      NumberOfSame(to, b);
    } else {
      assert bits[0].None?;
    }
  }

  /** A value cut into lanes of `from` bits, out of one with `count` lanes of `to`. */
  function Cut(e: Target, v: Value, to: nat, from: nat, count: nat): Value
    requires to > 0
  {
    Many(seq(count, j requires 0 <= j => Recut(e, v, to, from, j)))
  }

  ghost predicate DefiniteLanes(e: Target, v: Value, w: nat, n: nat) {
    forall k :: 0 <= k < n ==> Lane(v, k).Bits? && Lane(v, k).n < Pow2(w)
  }

  lemma BitDefinite(e: Target, v: Value, to: nat, m: nat, from: nat, n: nat, j: nat, i: nat)
    requires to > 0 && m * to == n * from && j < n && i < from && DefiniteLanes(e, v, to, m)
    ensures RecutBit(e, v, to, from, j, i).Some?
  {
    BelowTotal(j, n, from, Place(e, from, i));
    InLane(j * from + Place(e, from, i), to, m);
  }

  lemma CutLane(e: Target, v: Value, to: nat, m: nat, from: nat, n: nat, j: nat)
    requires from > 0 && to > 0 && m * to == n * from && j < n && DefiniteLanes(e, v, to, m)
    ensures AllKnown(RecutBits(e, v, to, from, j))
    ensures Lane(Cut(e, v, to, from, n), j) == Bits(NumberOf(KnownBits(RecutBits(e, v, to, from, j))))
  {
    forall i | 0 <= i < from ensures RecutBits(e, v, to, from, j)[i].Some? {
      BitDefinite(e, v, to, m, from, n, j, i);
    }
  }

  lemma CutBit(e: Target, v: Value, to: nat, m: nat, from: nat, n: nat, p: nat)
    requires from > 0 && to > 0 && m * to == n * from && p < m * to && DefiniteLanes(e, v, to, m)
    ensures BitAt(e, Cut(e, v, to, from, n), from, p) == BitAt(e, v, to, p)
  {
    InLane(p, from, n);
    InLane(p, to, m);
    var j, i := p / from, Place(e, from, p % from);
    CutLane(e, v, to, m, from, n, j);
    var bits := RecutBits(e, v, to, from, j);
    NumberHasBits(KnownBits(bits), i);
    assert bits[i] == RecutBit(e, v, to, from, j, i) == BitAt(e, v, to, p);
  }

  /** Cutting a value and cutting it back gives the value, so that a bitcast reaches every
  value there is. */
  lemma CutBack(e: Target, v: Value, to: nat, m: nat, from: nat, n: nat, k: nat)
    requires from > 0 && to > 0 && m * to == n * from && k < m && DefiniteLanes(e, v, to, m)
    ensures Recut(e, Cut(e, v, to, from, n), from, to, k) == Lane(v, k)
  {
    var u := Cut(e, v, to, from, n);
    var bits, same := RecutBits(e, u, from, to, k), RecutBits(e, v, to, to, k);
    forall i | 0 <= i < to ensures bits[i] == same[i] {
      BitBack(e, v, to, m, from, n, k, i);
    }
    assert bits == same;
    RecutSame(e, v, to, k);
  }

  lemma BitBack(e: Target, v: Value, to: nat, m: nat, from: nat, n: nat, k: nat, i: nat)
    requires from > 0 && i < to && m * to == n * from && k < m && DefiniteLanes(e, v, to, m)
    ensures RecutBit(e, Cut(e, v, to, from, n), from, to, k, i) == RecutBit(e, v, to, to, k, i)
  {
    BelowTotal(k, m, to, Place(e, to, i));
    CutBit(e, v, to, m, from, n, k * to + Place(e, to, i));
  }
}
