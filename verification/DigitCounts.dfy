/** The table of digit counts that js_dtoa starts from. */
module DigitCounts {
  import opened Power

  const DTOA_MAX_DIGITS: seq<nat> := [
    54, 35, 28, 24, 22, 20, 19, 18, 17, 17, 16, 16, 15, 15, 15, 14, 14, 14, 14, 14, 13, 13, 13, 13, 13, 13, 13, 12,
    12, 12, 12, 12, 12, 12, 12
  ]

  const TWO53: nat := 0x20_0000_0000_0000
  const TWO63: nat := 0x8000_0000_0000_0000

  /** Enough digits to tell all float64 apart, and few enough for 63 bits. */
  lemma EnoughDigits(radix: nat)
    requires 2 <= radix <= 36
    ensures var p := DTOA_MAX_DIGITS[radix - 2]; p >= 1 && TWO53 <= Pow(radix, p - 1) && Pow(radix, p) < TWO63
  {
    hide Pow;
    Digits2();
    Digits3();
    Digits4();
    Digits6();
    Digits9();
    Digits13();
    Digits17();
    Digits21();
    Digits25();
    Digits29();
    Digits33();
  }

  lemma Digits2()
    ensures Pow(2, 53) == 9007199254740992 && Pow(2, 54) == 18014398509481984
  {
    assert Pow(2, 9) == 512;
    assert Pow(2, 18) == 262144;
    assert Pow(2, 27) == 134217728;
    assert Pow(2, 36) == 68719476736;
    assert Pow(2, 45) == 35184372088832;
  }

  lemma Digits3()
    ensures Pow(3, 34) == 16677181699666569 && Pow(3, 35) == 50031545098999707
  {
    assert Pow(3, 9) == 19683;
    assert Pow(3, 18) == 387420489;
    assert Pow(3, 27) == 7625597484987;
  }

  lemma Digits4()
    ensures Pow(4, 27) == 18014398509481984 && Pow(4, 28) == 72057594037927936
    ensures Pow(5, 23) == 11920928955078125 && Pow(5, 24) == 59604644775390625
  {
    assert Pow(4, 9) == 262144;
    assert Pow(4, 18) == 68719476736;
    assert Pow(5, 9) == 1953125;
    assert Pow(5, 18) == 3814697265625;
  }

  lemma Digits6()
    ensures Pow(6, 21) == 21936950640377856 && Pow(6, 22) == 131621703842267136
    ensures Pow(7, 19) == 11398895185373143 && Pow(7, 20) == 79792266297612001
    ensures Pow(8, 18) == 18014398509481984 && Pow(8, 19) == 144115188075855872
  {
    assert Pow(6, 9) == 10077696;
    assert Pow(6, 18) == 101559956668416;
    assert Pow(7, 9) == 40353607;
    assert Pow(7, 18) == 1628413597910449;
    assert Pow(8, 9) == 134217728;
  }

  lemma Digits9()
    ensures Pow(9, 17) == 16677181699666569 && Pow(9, 18) == 150094635296999121
    ensures Pow(10, 16) == 10000000000000000 && Pow(10, 17) == 100000000000000000
    ensures Pow(11, 16) == 45949729863572161 && Pow(11, 17) == 505447028499293771
    ensures Pow(12, 15) == 15407021574586368 && Pow(12, 16) == 184884258895036416
  {
    assert Pow(9, 9) == 387420489;
    assert Pow(10, 9) == 1000000000;
    assert Pow(11, 9) == 2357947691;
    assert Pow(12, 9) == 5159780352;
  }

  lemma Digits13()
    ensures Pow(13, 15) == 51185893014090757 && Pow(13, 16) == 665416609183179841
    ensures Pow(14, 14) == 11112006825558016 && Pow(14, 15) == 155568095557812224
    ensures Pow(15, 14) == 29192926025390625 && Pow(15, 15) == 437893890380859375
    ensures Pow(16, 14) == 72057594037927936 && Pow(16, 15) == 1152921504606846976
  {
    assert Pow(13, 9) == 10604499373;
    assert Pow(14, 9) == 20661046784;
    assert Pow(15, 9) == 38443359375;
    assert Pow(16, 9) == 68719476736;
  }

  lemma Digits17()
    ensures Pow(17, 13) == 9904578032905937 && Pow(17, 14) == 168377826559400929
    ensures Pow(18, 13) == 20822964865671168 && Pow(18, 14) == 374813367582081024
    ensures Pow(19, 13) == 42052983462257059 && Pow(19, 14) == 799006685782884121
    ensures Pow(20, 13) == 81920000000000000 && Pow(20, 14) == 1638400000000000000
  {
    assert Pow(17, 9) == 118587876497;
    assert Pow(18, 9) == 198359290368;
    assert Pow(19, 9) == 322687697779;
    assert Pow(20, 9) == 512000000000;
  }

  lemma Digits21()
    ensures Pow(21, 13) == 154472377739119461 && Pow(21, 14) == 3243919932521508681
    ensures Pow(22, 12) == 12855002631049216 && Pow(22, 13) == 282810057883082752
    ensures Pow(23, 12) == 21914624432020321 && Pow(23, 13) == 504036361936467383
    ensures Pow(24, 12) == 36520347436056576 && Pow(24, 13) == 876488338465357824
  {
    assert Pow(21, 9) == 794280046581;
    assert Pow(22, 9) == 1207269217792;
    assert Pow(23, 9) == 1801152661463;
    assert Pow(24, 9) == 2641807540224;
  }

  lemma Digits25()
    ensures Pow(25, 12) == 59604644775390625 && Pow(25, 13) == 1490116119384765625
    ensures Pow(26, 12) == 95428956661682176 && Pow(26, 13) == 2481152873203736576
    ensures Pow(27, 12) == 150094635296999121 && Pow(27, 13) == 4052555153018976267
    ensures Pow(28, 12) == 232218265089212416 && Pow(28, 13) == 6502111422497947648
  {
    assert Pow(25, 9) == 3814697265625;
    assert Pow(26, 9) == 5429503678976;
    assert Pow(27, 9) == 7625597484987;
    assert Pow(28, 9) == 10578455953408;
  }

  lemma Digits29()
    ensures Pow(29, 11) == 12200509765705829 && Pow(29, 12) == 353814783205469041
    ensures Pow(30, 11) == 17714700000000000 && Pow(30, 12) == 531441000000000000
    ensures Pow(31, 11) == 25408476896404831 && Pow(31, 12) == 787662783788549761
    ensures Pow(32, 11) == 36028797018963968 && Pow(32, 12) == 1152921504606846976
  {
    assert Pow(29, 9) == 14507145975869;
    assert Pow(30, 9) == 19683000000000;
    assert Pow(31, 9) == 26439622160671;
    assert Pow(32, 9) == 35184372088832;
  }

  lemma Digits33()
    ensures Pow(33, 11) == 50542106513726817 && Pow(33, 12) == 1667889514952984961
    ensures Pow(34, 11) == 70188843638032384 && Pow(34, 12) == 2386420683693101056
    ensures Pow(35, 11) == 96549157373046875 && Pow(35, 12) == 3379220508056640625
    ensures Pow(36, 11) == 131621703842267136 && Pow(36, 12) == 4738381338321616896
  {
    assert Pow(33, 9) == 46411484401953;
    assert Pow(34, 9) == 60716992766464;
    assert Pow(35, 9) == 78815638671875;
    assert Pow(36, 9) == 101559956668416;
  }
}
