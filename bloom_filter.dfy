/** The Bloom filter: a fixed array of N bits and three hash-derived slots per
    string. The abstract state is the bit sequence; `Insert`, `Mem`, `Load` and
    `Matching` say what `add`, `contains`, the bulk-loading constructor and
    `test` compute on it, and the class `BloomFilter` implements them over an
    array that it updates in place. */
module Bloom {
  import opened CInt
  import opened Hashes

  /** The base and modulus of the polynomial hash, and the size of the bitset. */
  const P: LongLong := 31
  const M: LongLong := 1000000009
  const N: nat := 1000001

  /** With p = 31 and m = 1000000009 no intermediate product of the polynomial
      hash overflows `long long`: `p_pow` stays below m, so `p_pow * p` is below
      31 * 10^9 and `(c - 'a' + 1) * p_pow` below 224 * 10^9. */
  lemma FilterParamsSafe()
    ensures PolyParams(P, M)
  {
  }

  // ---------------------------------------------------------------------
  // Specification on the bit sequence

  /** The three bit indices of a string: the polynomial hash, and DJB2 and
      SDBM reduced modulo m, each reduced modulo the size of the bitset.
      Two of them may coincide. */
  function Slots(s: CString): (r: seq<nat>)
    ensures |r| == 3
    ensures forall k | 0 <= k < 3 :: r[k] < N
  {
    FilterParamsSafe();
    [PolynomialHash(s, P, M) % N, (Djb2(s) % M) % N, (Sdbm(s) % M) % N]
  }

  /** `bitset<1000001> bits(0)`: every bit clear. */
  function Empty(): (b: seq<bool>)
    ensures |b| == N
    ensures forall k | 0 <= k < N :: !b[k]
  {
    seq(N, _ => false)
  }

  /** The bits after `add(s)`: the three slots of s set, one after the other. */
  function Insert(b: seq<bool>, s: CString): (b': seq<bool>)
    requires |b| == N
    ensures |b'| == N
  {
    var r := Slots(s);
    b[r[0] := true][r[1] := true][r[2] := true]
  }

  /** `contains(s)`: all three slots of s are set. */
  predicate Mem(b: seq<bool>, s: CString): (r: bool)
    requires |b| == N
    ensures r <==> forall k | k in Slots(s) :: b[k]
  {
    var r := Slots(s);
    b[r[0]] && b[r[1]] && b[r[2]]
  }

  /** The bits after adding each of the lines, in order. */
  function Load(b: seq<bool>, lines: seq<CString>): (b': seq<bool>)
    requires |b| == N
    ensures |b'| == N
    decreases |lines|
  {
    if lines == [] then b
    else Insert(Load(b, lines[..|lines| - 1]), lines[|lines| - 1])
  }

  /** The lines for which `contains` holds, in their original order. */
  function Matching(b: seq<bool>, lines: seq<CString>): (r: seq<CString>)
    requires |b| == N
    ensures forall i | 0 <= i < |r| :: r[i] in lines && Mem(b, r[i])
    decreases |lines|
  {
    if lines == [] then []
    else
      var rest := Matching(b, lines[..|lines| - 1]);
      var last := lines[|lines| - 1];
      if Mem(b, last) then rest + [last] else rest
  }

  /** Every bit set in b is set in b' as well. */
  ghost predicate Covers(b: seq<bool>, b': seq<bool>)
  {
    |b| == |b'| && forall k | 0 <= k < |b| :: b[k] ==> b'[k]
  }

  // ---------------------------------------------------------------------
  // Properties of the specification

  /** `add(s)` sets exactly the slots of s: no other bit changes and no bit is
      cleared. */
  lemma InsertSetsSlots(b: seq<bool>, s: CString)
    requires |b| == N
    ensures forall k | 0 <= k < N :: Insert(b, s)[k] == (b[k] || k in Slots(s))
  {
  }

  /** Bits only accumulate under `add`. */
  lemma InsertCovers(b: seq<bool>, s: CString)
    requires |b| == N
    ensures Covers(b, Insert(b, s))
  {
    InsertSetsSlots(b, s);
  }

  /** A string whose slots are all set stays a member of any larger bit set. */
  lemma MemCovered(b: seq<bool>, b': seq<bool>, s: CString)
    requires |b| == N && Covers(b, b')
    requires Mem(b, s)
    ensures Mem(b', s)
  {
    var r := Slots(s);
    assert b[r[0]] && b[r[1]] && b[r[2]];
  }

  /** Adding strings only ever sets bits. */
  lemma {:induction false} LoadCovers(b: seq<bool>, lines: seq<CString>)
    requires |b| == N
    ensures Covers(b, Load(b, lines))
  {
    if lines != [] {
      var init := lines[..|lines| - 1];
      LoadCovers(b, init);
      InsertCovers(Load(b, init), lines[|lines| - 1]);
    }
  }

  /** Bulk loading two batches in turn is loading their concatenation. */
  lemma {:induction false} LoadAppend(b: seq<bool>, xs: seq<CString>, ys: seq<CString>)
    requires |b| == N
    ensures Load(Load(b, xs), ys) == Load(b, xs + ys)
    decreases |ys|
  {
    if ys == [] {
      assert xs + ys == xs;
    } else {
      var init := ys[..|ys| - 1];
      LoadAppend(b, xs, init);
      assert (xs + ys)[..|xs + ys| - 1] == xs + init;
    }
  }

  /** No false negatives: right after `add(s)`, and after any further adds,
      `contains(s)` holds. */
  lemma NoFalseNegatives(b: seq<bool>, s: CString, later: seq<CString>)
    requires |b| == N
    ensures Mem(Insert(b, s), s)
    ensures Mem(Load(Insert(b, s), later), s)
  {
    var b1 := Insert(b, s);
    InsertSetsSlots(b, s);
    assert Mem(b1, s);
    LoadCovers(b1, later);
    MemCovered(b1, Load(b1, later), s);
  }

  /** Every line that was bulk loaded is reported as present. */
  lemma {:induction false} LoadRemembers(b: seq<bool>, lines: seq<CString>, i: nat)
    requires |b| == N && i < |lines|
    ensures Mem(Load(b, lines), lines[i])
  {
    var before, after := lines[..i], lines[i + 1..];
    assert lines == before + [lines[i]] + after;
    LoadAppend(b, before + [lines[i]], after);
    LoadAppend(b, before, [lines[i]]);
    assert Load(Load(b, before), [lines[i]]) == Insert(Load(b, before), lines[i]);
    NoFalseNegatives(Load(b, before), lines[i], after);
  }

  /** Adding the same string twice leaves the bits as adding it once. */
  lemma InsertIdempotent(b: seq<bool>, s: CString)
    requires |b| == N
    ensures Insert(Insert(b, s), s) == Insert(b, s)
  {
    InsertSetsSlots(b, s);
    InsertSetsSlots(Insert(b, s), s);
  }

  /** Two adds commute. */
  lemma InsertCommutes(b: seq<bool>, s: CString, t: CString)
    requires |b| == N
    ensures Insert(Insert(b, s), t) == Insert(Insert(b, t), s)
  {
    InsertSetsSlots(b, s);
    InsertSetsSlots(b, t);
    InsertSetsSlots(Insert(b, s), t);
    InsertSetsSlots(Insert(b, t), s);
  }

  /** After bulk loading, a bit is set exactly when it was set before or it is
      a slot of one of the lines. */
  lemma {:induction false} LoadSetsSlots(b: seq<bool>, lines: seq<CString>, k: nat)
    requires |b| == N && k < N
    ensures Load(b, lines)[k] == (b[k] || exists x | x in lines :: k in Slots(x))
  {
    if lines != [] {
      var init, last := lines[..|lines| - 1], lines[|lines| - 1];
      LoadSetsSlots(b, init, k);
      InsertSetsSlots(Load(b, init), last);
      assert lines == init + [last];
      if exists x | x in lines :: k in Slots(x) {
        var x :| x in lines && k in Slots(x);
        assert x in init || x == last;
      }
    }
  }

  /** Order independence: the bits after bulk loading depend only on which
      strings were loaded, not on their order or on repetitions. */
  lemma LoadOrderIndependent(b: seq<bool>, xs: seq<CString>, ys: seq<CString>)
    requires |b| == N
    requires forall x :: x in xs <==> x in ys
    ensures Load(b, xs) == Load(b, ys)
  {
    forall k | 0 <= k < N ensures Load(b, xs)[k] == Load(b, ys)[k] {
      LoadSetsSlots(b, xs, k);
      LoadSetsSlots(b, ys, k);
    }
  }

  /** On the freshly constructed, all-zero filter nothing is present, not even
      the empty string. */
  lemma EmptyHasNoMembers(s: CString)
    ensures !Mem(Empty(), s)
  {
  }

  /** `test` reports a line exactly when it is among the lines and `contains`
      holds for it. */
  lemma {:induction false} MatchingExactly(b: seq<bool>, lines: seq<CString>, x: CString)
    requires |b| == N
    ensures x in Matching(b, lines) <==> x in lines && Mem(b, x)
    decreases |lines|
  {
    if lines != [] {
      var init := lines[..|lines| - 1];
      MatchingExactly(b, init, x);
      assert lines == init + [lines[|lines| - 1]];
    }
  }

  /** The reported lines are a subsequence of the input: never more of them. */
  lemma {:induction false} MatchingBounded(b: seq<bool>, lines: seq<CString>)
    requires |b| == N
    ensures |Matching(b, lines)| <= |lines|
    decreases |lines|
  {
    if lines != [] {
      MatchingBounded(b, lines[..|lines| - 1]);
    }
  }

  // ---------------------------------------------------------------------
  // The filter object

  class BloomFilter {
    const p: LongLong := P
    const m: LongLong := M
    /** The number of lines bulk loaded by the constructor. */
    var size: int
    /** `bitset<1000001> bits`. */
    const bits: array<bool>

    ghost predicate Valid()
      reads this
    {
      bits.Length == N
    }

    /** Starts from all bits clear, then adds every line in turn and counts it. */
    constructor (lines: seq<CString>)
      ensures Valid() && fresh(bits)
      ensures bits[..] == Load(Empty(), lines)
      ensures size == |lines|
    {
      bits := new bool[N](_ => false);
      size := 0;
      new;
      assert bits[..] == Empty();
      for i := 0 to |lines|
        invariant bits[..] == Load(Empty(), lines[..i])
        invariant size == i
      {
        assert lines[..i + 1][..i] == lines[..i];
        Add(lines[i]);
        size := size + 1;
      }
      assert lines[..|lines|] == lines;
    }

    /** `add(s)`: sets the three slots of s. */
    method Add(s: CString)
      requires Valid()
      modifies bits
      ensures Valid()
      ensures bits[..] == Insert(old(bits[..]), s)
    {
      FilterParamsSafe();
      var hash := ComputePolynomialHash(s, p, m);
      var hash2 := ComputeDjb2(s);
      hash2 := hash2 % m;
      var hash3 := ComputeSdbm(s);
      hash3 := hash3 % m;
      bits[hash % bits.Length] := true;
      bits[hash2 % bits.Length] := true;
      bits[hash3 % bits.Length] := true;
    }

    /** `contains(s)`: whether all three slots of s are set. */
    method Contains(s: CString) returns (r: bool)
      requires Valid()
      ensures r == Mem(bits[..], s)
    {
      FilterParamsSafe();
      var hash := ComputePolynomialHash(s, p, m);
      var hash2 := ComputeDjb2(s);
      hash2 := hash2 % m;
      var hash3 := ComputeSdbm(s);
      hash3 := hash3 % m;
      r := bits[hash % bits.Length] && bits[hash2 % bits.Length] && bits[hash3 % bits.Length];
    }

    /** `test`: checks every line, counting positives and negatives and
        collecting the positive lines in order. It does not change the bits. */
    method Test(lines: seq<CString>) returns (positives: int, negatives: int, maliciousUrls: seq<CString>)
      requires Valid()
      ensures maliciousUrls == Matching(bits[..], lines)
      ensures positives == |maliciousUrls|
      ensures positives + negatives == |lines|
    {
      positives, negatives, maliciousUrls := 0, 0, [];
      for i := 0 to |lines|
        invariant maliciousUrls == Matching(bits[..], lines[..i])
        invariant positives == |maliciousUrls|
        invariant positives + negatives == i
      {
        assert lines[..i + 1][..i] == lines[..i];
        var result := Contains(lines[i]);
        positives := positives + (if result then 1 else 0);
        negatives := negatives + (if result then 0 else 1);
        if result {
          maliciousUrls := maliciousUrls + [lines[i]];
        }
      }
      assert lines[..|lines|] == lines;
    }
  }
}
