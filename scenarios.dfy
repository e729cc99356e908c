/** Worked examples: the filter on concrete strings, the hash values worked
    out char by char. */
module Scenarios {
  import opened CInt
  import opened Hashes
  import opened Bloom

  /** "evil.com" and "safe.com" as C chars. */
  const EVIL_COM: CString := [101, 118, 105, 108, 46, 99, 111, 109]
  const SAFE_COM: CString := [115, 97, 102, 101, 46, 99, 111, 109]

  /** One iteration of the polynomial hash with the filter's parameters, for a
      non-negative running power: the term wraps modulo 2^64 before `% m`. */
  lemma PolyRunSnocValue(s: CString, c: Char, h: ULong, power: LongLong, h': int, power': int)
    requires PolyRun(s, P, M) == PolyState(h, power)
    requires h < M && 0 <= power < M
    requires h' == ToULong(h + Digit(c) * power) % M
    requires power' == (power * 31) % M
    ensures PolyRun(s + [c], P, M) == PolyState(h', power')
  {
    PolyRunSnoc(s, c, P, M);
    PowerUpdateWithoutSign(power, P, M);
    HashUpdateValue(h, c, power, M);
  }

  /** The DJB2 and SDBM slots of a string whose two hash values are known. */
  lemma Djb2SdbmSlots(s: CString, h2: ULong, h3: ULong, j: nat, k: nat)
    requires Djb2(s) == h2 && Sdbm(s) == h3
    requires j == (h2 % M) % N && k == (h3 % M) % N
    ensures Slots(s)[1] == j && Slots(s)[2] == k
  {
  }

  /** DJB2 and SDBM of "evil.com" and of "safe.com", char by char. */
  lemma EvilComDjb2()
    ensures Djb2(EVIL_COM) == 7572345869776258
  {
    var s0: CString := [];
    var s1 := s0 + [101];
    var s2 := s1 + [118];
    var s3 := s2 + [105];
    var s4 := s3 + [108];
    var s5 := s4 + [46];
    var s6 := s5 + [99];
    var s7 := s6 + [111];
    var s8 := s7 + [109];
    Djb2Snoc(s0, 101); assert Djb2(s1) == 177674;
    Djb2Snoc(s1, 118); assert Djb2(s2) == 5863360;
    Djb2Snoc(s2, 105); assert Djb2(s3) == 193490985;
    Djb2Snoc(s3, 108); assert Djb2(s4) == 6385202613;
    Djb2Snoc(s4, 46); assert Djb2(s5) == 210711686275;
    Djb2Snoc(s5, 99); assert Djb2(s6) == 6953485647174;
    Djb2Snoc(s6, 111); assert Djb2(s7) == 229465026356853;
    Djb2Snoc(s7, 109); assert Djb2(s8) == 7572345869776258;
    assert s8 == EVIL_COM;
  }

  lemma EvilComSdbm()
    ensures Sdbm(EVIL_COM) == 1228690785140581383
  {
    var s0: CString := [];
    var s1 := s0 + [101];
    var s2 := s1 + [118];
    var s3 := s2 + [105];
    var s4 := s3 + [108];
    var s5 := s4 + [46];
    var s6 := s5 + [99];
    var s7 := s6 + [111];
    var s8 := s7 + [109];
    SdbmSnoc(s0, 101); assert Sdbm(s1) == 101;
    SdbmSnoc(s1, 118); assert Sdbm(s2) == 6625617;
    SdbmSnoc(s2, 105); assert Sdbm(s3) == 434633849688;
    SdbmSnoc(s3, 108); assert Sdbm(s4) == 28511545905683220;
    SdbmSnoc(s4, 46); assert Sdbm(s5) == 7207748422248835610;
    SdbmSnoc(s5, 99); assert Sdbm(s6) == 12591397851849710793;
    SdbmSnoc(s6, 111); assert Sdbm(s7) == 11695039070295152102;
    SdbmSnoc(s7, 109); assert Sdbm(s8) == 1228690785140581383;
    assert s8 == EVIL_COM;
  }

  lemma SafeComDjb2()
    ensures Djb2(SAFE_COM) == 7572915281442961
  {
    var s0: CString := [];
    var s1 := s0 + [115];
    var s2 := s1 + [97];
    var s3 := s2 + [102];
    var s4 := s3 + [101];
    var s5 := s4 + [46];
    var s6 := s5 + [99];
    var s7 := s6 + [111];
    var s8 := s7 + [109];
    Djb2Snoc(s0, 115); assert Djb2(s1) == 177688;
    Djb2Snoc(s1, 97); assert Djb2(s2) == 5863801;
    Djb2Snoc(s2, 102); assert Djb2(s3) == 193505535;
    Djb2Snoc(s3, 101); assert Djb2(s4) == 6385682756;
    Djb2Snoc(s4, 46); assert Djb2(s5) == 210727530994;
    Djb2Snoc(s5, 99); assert Djb2(s6) == 6954008522901;
    Djb2Snoc(s6, 111); assert Djb2(s7) == 229482281255844;
    Djb2Snoc(s7, 109); assert Djb2(s8) == 7572915281442961;
    assert s8 == SAFE_COM;
  }

  lemma SafeComSdbm()
    ensures Sdbm(SAFE_COM) == 7209870630618926880
  {
    var s0: CString := [];
    var s1 := s0 + [115];
    var s2 := s1 + [97];
    var s3 := s2 + [102];
    var s4 := s3 + [101];
    var s5 := s4 + [46];
    var s6 := s5 + [99];
    var s7 := s6 + [111];
    var s8 := s7 + [109];
    SdbmSnoc(s0, 115); assert Sdbm(s1) == 115;
    SdbmSnoc(s1, 97); assert Sdbm(s2) == 7543982;
    SdbmSnoc(s2, 102); assert Sdbm(s3) == 494877675320;
    SdbmSnoc(s3, 101); assert Sdbm(s4) == 32463480623316781;
    SdbmSnoc(s4, 46); assert Sdbm(s5) == 8196296932359081025;
    SdbmSnoc(s5, 99); assert Sdbm(s6) == 1632949411055207522;
    SdbmSnoc(s6, 111); assert Sdbm(s7) == 18052323852901553293;
    SdbmSnoc(s7, 109); assert Sdbm(s8) == 7209870630618926880;
    assert s8 == SAFE_COM;
  }

  /** Inserting "evil.com" and querying it reports it, and querying "safe.com"
      does not: the DJB2 and SDBM slots of "safe.com" are two different slots,
      neither of them a DJB2 or SDBM slot of "evil.com", so they cannot both be
      the one remaining slot of "evil.com". */
  lemma EvilComScenario()
    ensures Slots(EVIL_COM)[1..] == [624352, 364335]
    ensures Slots(SAFE_COM)[1..] == [286513, 91065]
    ensures Mem(Insert(Empty(), EVIL_COM), EVIL_COM)
    ensures !Mem(Insert(Empty(), EVIL_COM), SAFE_COM)
  {
    // the slot arithmetic first, while no hash value is in scope
    assert (7572345869776258 % M) % N == 624352;
    assert (1228690785140581383 % M) % N == 364335;
    assert (7572915281442961 % M) % N == 286513;
    assert (7209870630618926880 % M) % N == 91065;
    EvilComDjb2();
    EvilComSdbm();
    SafeComDjb2();
    SafeComSdbm();
    Djb2SdbmSlots(EVIL_COM, 7572345869776258, 1228690785140581383, 624352, 364335);
    Djb2SdbmSlots(SAFE_COM, 7572915281442961, 7209870630618926880, 286513, 91065);
    NoFalseNegatives(Empty(), EVIL_COM, []);
    InsertSetsSlots(Empty(), EVIL_COM);
  }

  /** "a", "b", "c" and "d". */
  const A: CString := [97]
  const B: CString := [98]
  const C: CString := [99]
  const D: CString := [100]

  /** The slots of a one-char string with a non-negative digit: the
      polynomial hash is the digit, DJB2 is 5381 * 33 + c and SDBM is c. */
  lemma OneCharSlots(c: Char, i: nat, j: nat, k: nat)
    requires Digit(c) >= 0
    requires i == Digit(c) % N
    requires j == ((5381 * 33 + c) % M) % N
    requires k == (c as int % M) % N
    ensures Slots([c]) == [i, j, k]
  {
    var e: CString := [];
    assert e + [c] == [c];
    PolyRunSnocValue(e, c, 0, 1, Digit(c), 31);
    Djb2Snoc(e, c);
    SdbmSnoc(e, c);
  }

  /** Loading "a", "b", "c" and testing "a", "d" reports "a" only. */
  lemma BulkScenario()
    ensures Matching(Load(Empty(), [A, B, C]), [A, D]) == [A]
  {
    OneCharSlots(97, 1, 177670, 97);
    OneCharSlots(98, 2, 177671, 98);
    OneCharSlots(99, 3, 177672, 99);
    OneCharSlots(100, 4, 177673, 100);
    var b := Load(Empty(), [A, B, C]);
    forall k | 0 <= k < N ensures b[k] == (k in Slots(A) || k in Slots(B) || k in Slots(C)) {
      LoadSetsSlots(Empty(), [A, B, C], k);
    }
    assert Mem(b, A);
    assert !b[4];
    assert Matching(b, [A]) == [A] by { assert [A][..0] == []; }
    assert [A, D][..1] == [A];
  }

  /** The same on the filter object: the constructor loads the three lines and
      `Test` reports one positive and one negative. */
  method BulkScenarioOnFilter() returns (positives: int, negatives: int, maliciousUrls: seq<CString>)
    ensures maliciousUrls == [A]
    ensures positives == 1 && negatives == 1
  {
    var filter := new BloomFilter([A, B, C]);
    positives, negatives, maliciousUrls := filter.Test([A, D]);
    BulkScenario();
    assert maliciousUrls == [A];
    assert positives == 1 && negatives == 1;
  }
}
