/**
 The padding of the chain protocols on known states of the generator: the thresholds, the tables and the
 remainders are those of the source, on both ends.
 */
module ChainLaws {
  import opened Bytes
  import opened XorShift
  import opened XorShiftLaws
  import opened AuthChainSpec
  import AuthChain

  // The values drawn, as numbers
  lemma Values()
    ensures AsNat(0x2000158) == 33554776
    ensures AsNat(0x17000bae) == 385878958
    ensures AsNat(0x1000017004aaf) == 281475362605743
    ensures AsNat(0xc80001743215a) == 3518437599158618
    ensures AsNat(0x16217010daad50) == 6229214690454864
    ensures AsNat(0x17002015758bf0) == 6474062263323632
    ensures AsNat(0x100bd170ceb04ea2) == 1156248011784867490
    ensures AsNat(0x4a4e3b9ea800f1a1) == 5354282559599604129
    ensures AsNat(0x706136e7d27094fb) == 8097813974284801275
    ensures AsNat(0x72757ced4eb2bdf2) == 8247635651268361714
    ensures AsNat(0x75ecfe8f49101b39) == 8497446488300854073
    ensures AsNat(0x78a0175a72485ee3) == 8691972958056898275
    ensures AsNat(0x900e461f7bb0d470) == 10380311292168688752
    ensures AsNat(0xa158b712539a8eae) == 11626243727396867758
    ensures AsNat(0xacd16ad8deb020f5) == 12452851924337697013
    ensures AsNat(0xc804c19551cd393a) == 14412857554559121722
    ensures AsNat(0xf4b4a8ce4a02f5a7) == 17632904045020771751
    ensures AsNat(0xf4b4c1afdc21b022) == 17632931402118967330
  {
  }

  // What is left of known values
  lemma Remainders()
    ensures Modulo(0xf4b4c1afdc21b022, 1021) == 580 && Modulo(0xf4b4a8ce4a02f5a7, 31) == 4
    ensures Modulo(0xf4b4c1afdc21b022, 4) == 2 && Modulo(0xf4b4c1afdc21b022, 1) == 0
    ensures Modulo(0xacd16ad8deb020f5, 4) == 1 && Modulo(0xacd16ad8deb020f5, 2) == 1
            && Modulo(0xacd16ad8deb020f5, 3) == 1
    ensures Modulo(0x900e461f7bb0d470, 1021) == 308 && Modulo(0xacd16ad8deb020f5, 8589934609) % 580 == 424
  {
    Values();
    hide AsNat;
  }

  // With the generator seeded for 100 bytes of data, what is drawn next
  lemma NextDraws()
    ensures Draw(Prng(0xdded1aba467f9c73, 0x16c7a6f595a213af))
            == (0xacd16ad8deb020f5, Prng(0x16c7a6f595a213af, 0x9609c3e3490e0d46))
    ensures Draw(Prng(0x16c7a6f595a213af, 0x9609c3e3490e0d46))
            == (0x900e461f7bb0d470, Prng(0x9609c3e3490e0d46, 0xfa04823c32a2c72a))
  {
  }

  // auth_chain_a: padding by the length of the data, and where in it the data starts
  lemma KnownPaddingA(r: Prng)
    ensures RandLength(ChainA, 100, Digest(), r).length == 580
    ensures StartPos(580, RandLength(ChainA, 100, Digest(), r).prng).0 == 424
    ensures RandLength(ChainA, 1400, Digest(), r).length == 4
    ensures RandLength(ChainA, 1441, Digest(), r).length == 0
  {
    Draws100();
    Draws1400();
    NextDraws();
    Remainders();
    hide Draw, Modulo, Seeded, Overwritten, Digest;
  }

  // auth_chain_b: from the first table, from the second, none, and as in auth_chain_a
  lemma KnownPaddingB(r: Prng)
    ensures Table([100, 200, 300, 1000]) && Table([50]) && Table([10, 150, 200, 250]) && Table([10, 20])
            && Table([10, 20, 30])
    ensures RandLength(ChainB([100, 200, 300, 1000], [50], 4), 100, Digest(), r).length == 896
    ensures RandLength(ChainB([50], [10, 150, 200, 250], 4), 100, Digest(), r).length == 96
    ensures RandLength(ChainB([50], [10, 20, 30], 4), 100, Digest(), r).length == 0
    ensures RandLength(ChainB([50], [10, 20], 4), 100, Digest(), r).length == 308
    ensures RandLength(ChainB([50], [50], 4), 1440, Digest(), r).length == 0
  {
    FromKnownTables();
    NoPadding(r);
    hide *;
    Seeds100(r, [100, 200, 300, 1000], [50]);
    Seeds100(r, [50], [10, 150, 200, 250]);
    Seeds100(r, [50], [10, 20, 30]);
    Seeds100(r, [50], [10, 20]);
  }

  lemma NoPadding(r: Prng)
    requires Table([50])
    ensures RandLength(ChainB([50], [50], 4), 1440, Digest(), r).length == 0
  {
  }

  lemma Seeds100(r: Prng, sizes: seq<nat>, sizes2: seq<nat>)
    requires Table(sizes) && Table(sizes2)
    ensures RandLength(ChainB(sizes, sizes2, 4), 100, Digest(), r).length
            == FromTables(sizes, sizes2, 4, 100, Seeded(Overwritten(Digest(), 100))).0
  {
    hide FromTables, Seeded, Digest;
  }

  lemma FromKnownTables()
    ensures Table([100, 200, 300, 1000]) && Table([50]) && Table([10, 150, 200, 250]) && Table([10, 20])
            && Table([10, 20, 30])
    ensures FromTables([100, 200, 300, 1000], [50], 4, 100, Seeded(Overwritten(Digest(), 100))).0 == 896
    ensures FromTables([50], [10, 150, 200, 250], 4, 100, Seeded(Overwritten(Digest(), 100))).0 == 96
    ensures FromTables([50], [10, 20, 30], 4, 100, Seeded(Overwritten(Digest(), 100))).0 == 0
    ensures FromTables([50], [10, 20], 4, 100, Seeded(Overwritten(Digest(), 100))).0 == 308
  {
    Draws100();
    NextDraws();
    Remainders();
    Searches();
    hide Draw, Modulo, Seeded, Overwritten, Digest, AuthChainSpec.Search;
  }

  lemma Searches()
    ensures AuthChainSpec.Search([100, 200, 300, 1000], 104) == 1 && AuthChainSpec.Search([50], 104) == 1
    ensures AuthChainSpec.Search([10, 150, 200, 250], 104) == 1 && AuthChainSpec.Search([10, 20], 104) == 2
    ensures AuthChainSpec.Search([10, 20, 30], 104) == 3
  {
  }

  // The tables of auth_chain_b for a known key: 4 and 8 entries
  function Key(): seq<byte> {
    [4, 0, 0, 0, 0, 0, 0, 0, 46, 0, 0, 0, 0, 0, 0, 0]
  }

  lemma KnownTables()
    ensures AuthChain.TablesFor(Key()) == ([32, 423, 578, 1258], [15, 182, 190, 353, 478, 489, 795, 1354])
  {
    KeyState();
    FirstTable();
    SecondTable();
    SortedFirst();
    SortedSecond();
    KeyDraws();
    KeyRemainders();
    hide Draw, FromBin, AuthChain.DrawSizes, AuthChain.Sorted, AuthChain.Entry, Modulo, Key;
  }

  lemma KeyState()
    ensures FromBin(Key()) == Prng(4, 46)
  {
    KeyWords();
    hide GetLE64;
    assert Key()[..8] == [4, 0, 0, 0, 0, 0, 0, 0] && Key()[8..16] == [46, 0, 0, 0, 0, 0, 0, 0];
  }

  lemma KeyWords()
    ensures GetLE64([4, 0, 0, 0, 0, 0, 0, 0]) == 4 && GetLE64([46, 0, 0, 0, 0, 0, 0, 0]) == 46
  {
    KeyBytes();
    hide XorShift.Wide;
  }

  lemma KeyBytes()
    ensures XorShift.Wide(4) == 4 && XorShift.Wide(46) == 46 && XorShift.Wide(0) == 0
  {
  }

  lemma KeyDraws()
    ensures Draw(Prng(0x4, 0x2e)) == (0x2000158, Prng(0x2e, 0x200012a))
    ensures Draw(Prng(0x2e, 0x200012a)) == (0x17000bae, Prng(0x200012a, 0x15000a84))
    ensures Draw(Prng(0x200012a, 0x15000a84)) == (0x1000017004aaf, Prng(0x15000a84, 0x100000200402b))
    ensures Draw(Prng(0x15000a84, 0x100000200402b)) == (0xc80001743215a, Prng(0x100000200402b, 0xb80001542e12f))
    ensures Draw(Prng(0x100000200402b, 0xb80001542e12f)) == (0x17002015758bf0, Prng(0xb80001542e12f, 0xb80200032aac1))
    ensures Draw(Prng(0xb80001542e12f, 0xb80200032aac1)) == (0x16217010daad50, Prng(0xb80200032aac1, 0xaa15010a8028f))
    ensures Draw(Prng(0xb80200032aac1, 0xaa15010a8028f))
            == (0x100bd170ceb04ea2, Prng(0xaa15010a8028f, 0x10013020be084c13))
    ensures Draw(Prng(0xaa15010a8028f, 0x10013020be084c13))
            == (0xc804c19551cd393a, Prng(0x10013020be084c13, 0xb803917493c4ed27))
    ensures Draw(Prng(0x10013020be084c13, 0xb803917493c4ed27))
            == (0x706136e7d27094fb, Prng(0xb803917493c4ed27, 0xb85da5733eaba7d4))
    ensures Draw(Prng(0xb803917493c4ed27, 0xb85da5733eaba7d4))
            == (0x72757ced4eb2bdf2, Prng(0xb85da5733eaba7d4, 0xba17d77a1007161e))
    ensures Draw(Prng(0xb85da5733eaba7d4, 0xba17d77a1007161e))
            == (0x75ecfe8f49101b39, Prng(0xba17d77a1007161e, 0xbbd527153909051b))
    ensures Draw(Prng(0xba17d77a1007161e, 0xbbd527153909051b))
            == (0x78a0175a72485ee3, Prng(0xbbd527153909051b, 0xbccaf045393f59c8))
    ensures Draw(Prng(0xbbd527153909051b, 0xbccaf045393f59c8))
            == (0x4a4e3b9ea800f1a1, Prng(0xbccaf045393f59c8, 0x8d834b596ec197d9))
    ensures Draw(Prng(0xbccaf045393f59c8, 0x8d834b596ec197d9))
            == (0xa158b712539a8eae, Prng(0x8d834b596ec197d9, 0x13d56bb8e4d8f6d5))
  {
  }

  lemma KeyRemainders()
    ensures Modulo(0x2000158, 8) == 0 && Modulo(0x16217010daad50, 16) == 0
    ensures AuthChain.Entry(0x17000bae) == 1258
    ensures AuthChain.Entry(0x1000017004aaf) == 423
    ensures AuthChain.Entry(0xc80001743215a) == 578
    ensures AuthChain.Entry(0x17002015758bf0) == 32
    ensures AuthChain.Entry(0x100bd170ceb04ea2) == 190
    ensures AuthChain.Entry(0xc804c19551cd393a) == 182
    ensures AuthChain.Entry(0x706136e7d27094fb) == 795
    ensures AuthChain.Entry(0x72757ced4eb2bdf2) == 1354
    ensures AuthChain.Entry(0x75ecfe8f49101b39) == 353
    ensures AuthChain.Entry(0x78a0175a72485ee3) == 15
    ensures AuthChain.Entry(0x4a4e3b9ea800f1a1) == 489
    ensures AuthChain.Entry(0xa158b712539a8eae) == 478
  {
    hide *;
    KeyRemainders1();
    KeyRemainders2();
    KeyRemainders3();
  }

  // Remainders, with their quotients
  lemma Of2340(q: nat, r: nat)
    requires r < 2340
    ensures (2340 * q + r) % 2340 == r
  {
  }

  lemma Of2040(q: nat, r: nat)
    requires r < 2040
    ensures (2040 * q + r) % 2040 == r
  {
  }

  lemma Of1440(q: nat, r: nat)
    requires r < 1440
    ensures (1440 * q + r) % 1440 == r
  {
  }

  lemma EntryIs(v: bv64, n: nat, q: nat, r: nat, q': nat, r': nat, e: nat)
    requires AsNat(v) == n && n == 2340 * q + r && r < 2340 && r == 2040 * q' + r' && r' < 2040
    requires e < 1440 && (r' == e || r' == e + 1440)
    ensures AuthChain.Entry(v) == e
  {
    hide AsNat;
    Of2340(q, r);
    Of2040(q', r');
    Of1440(if r' == e then 0 else 1, e);
  }

  lemma TableLengths()
    ensures Modulo(0x2000158, 8) == 0 && Modulo(0x16217010daad50, 16) == 0
  {
    Values();
    hide AsNat;
  }

  lemma Entry1()
    ensures AuthChain.Entry(0x17000bae) == 1258
  {
    hide AuthChain.Entry, Modulo;
    assert AsNat(0x17000bae) == 385878958;
    EntryIs(0x17000bae, 385878958, 164905, 1258, 0, 1258, 1258);
  }

  lemma Entry2()
    ensures AuthChain.Entry(0x1000017004aaf) == 423
  {
    hide AuthChain.Entry, Modulo;
    assert AsNat(0x1000017004aaf) == 281475362605743;
    EntryIs(0x1000017004aaf, 281475362605743, 120288616498, 423, 0, 423, 423);
  }

  lemma Entry3()
    ensures AuthChain.Entry(0xc80001743215a) == 578
  {
    hide AuthChain.Entry, Modulo;
    assert AsNat(0xc80001743215a) == 3518437599158618;
    EntryIs(0xc80001743215a, 3518437599158618, 1503605811606, 578, 0, 578, 578);
  }

  lemma Entry4()
    ensures AuthChain.Entry(0x17002015758bf0) == 32
  {
    hide AuthChain.Entry, Modulo;
    assert AsNat(0x17002015758bf0) == 6474062263323632;
    EntryIs(0x17002015758bf0, 6474062263323632, 2766693274924, 1472, 0, 1472, 32);
  }

  lemma Entry5()
    ensures AuthChain.Entry(0x100bd170ceb04ea2) == 190
  {
    hide AuthChain.Entry, Modulo;
    assert AsNat(0x100bd170ceb04ea2) == 1156248011784867490;
    EntryIs(0x100bd170ceb04ea2, 1156248011784867490, 494123081959345, 190, 0, 190, 190);
  }

  lemma Entry6()
    ensures AuthChain.Entry(0xc804c19551cd393a) == 182
  {
    hide AuthChain.Entry, Modulo;
    assert AsNat(0xc804c19551cd393a) == 14412857554559121722;
    EntryIs(0xc804c19551cd393a, 14412857554559121722, 6159340835281675, 2222, 1, 182, 182);
  }

  lemma Entry7()
    ensures AuthChain.Entry(0x706136e7d27094fb) == 795
  {
    hide AuthChain.Entry, Modulo;
    assert AsNat(0x706136e7d27094fb) == 8097813974284801275;
    EntryIs(0x706136e7d27094fb, 8097813974284801275, 3460604262514872, 795, 0, 795, 795);
  }

  lemma Entry8()
    ensures AuthChain.Entry(0x72757ced4eb2bdf2) == 1354
  {
    hide AuthChain.Entry, Modulo;
    assert AsNat(0x72757ced4eb2bdf2) == 8247635651268361714;
    EntryIs(0x72757ced4eb2bdf2, 8247635651268361714, 3524630620200154, 1354, 0, 1354, 1354);
  }

  lemma Entry9()
    ensures AuthChain.Entry(0x75ecfe8f49101b39) == 353
  {
    hide AuthChain.Entry, Modulo;
    assert AsNat(0x75ecfe8f49101b39) == 8497446488300854073;
    EntryIs(0x75ecfe8f49101b39, 8497446488300854073, 3631387388162758, 353, 0, 353, 353);
  }

  lemma Entry10()
    ensures AuthChain.Entry(0x78a0175a72485ee3) == 15
  {
    hide AuthChain.Entry, Modulo;
    assert AsNat(0x78a0175a72485ee3) == 8691972958056898275;
    EntryIs(0x78a0175a72485ee3, 8691972958056898275, 3714518358143973, 1455, 0, 1455, 15);
  }

  lemma Entry11()
    ensures AuthChain.Entry(0x4a4e3b9ea800f1a1) == 489
  {
    hide AuthChain.Entry, Modulo;
    assert AsNat(0x4a4e3b9ea800f1a1) == 5354282559599604129;
    EntryIs(0x4a4e3b9ea800f1a1, 5354282559599604129, 2288154939999830, 1929, 0, 1929, 489);
  }

  lemma Entry12()
    ensures AuthChain.Entry(0xa158b712539a8eae) == 478
  {
    hide AuthChain.Entry, Modulo;
    assert AsNat(0xa158b712539a8eae) == 11626243727396867758;
    EntryIs(0xa158b712539a8eae, 11626243727396867758, 4968480225383276, 1918, 0, 1918, 478);
  }

  lemma KeyRemainders1()
    ensures Modulo(0x2000158, 8) == 0 && Modulo(0x16217010daad50, 16) == 0
    ensures AuthChain.Entry(0x17000bae) == 1258
    ensures AuthChain.Entry(0x1000017004aaf) == 423
    ensures AuthChain.Entry(0xc80001743215a) == 578
    ensures AuthChain.Entry(0x17002015758bf0) == 32
  {
    hide *;
    TableLengths();
    Entry1();
    Entry2();
    Entry3();
    Entry4();
  }

  lemma KeyRemainders2()
    ensures AuthChain.Entry(0x100bd170ceb04ea2) == 190
    ensures AuthChain.Entry(0xc804c19551cd393a) == 182
    ensures AuthChain.Entry(0x706136e7d27094fb) == 795
    ensures AuthChain.Entry(0x72757ced4eb2bdf2) == 1354
    ensures AuthChain.Entry(0x75ecfe8f49101b39) == 353
  {
    hide *;
    Entry5();
    Entry6();
    Entry7();
    Entry8();
    Entry9();
  }

  lemma KeyRemainders3()
    ensures AuthChain.Entry(0x78a0175a72485ee3) == 15
    ensures AuthChain.Entry(0x4a4e3b9ea800f1a1) == 489
    ensures AuthChain.Entry(0xa158b712539a8eae) == 478
  {
    hide *;
    Entry10();
    Entry11();
    Entry12();
  }

  lemma FirstTable()
    ensures AuthChain.DrawSizes(Prng(0x2e, 0x200012a), 4)
            == ([1258, 423, 578, 32], Prng(0xb80001542e12f, 0xb80200032aac1))
  {
    KeyDraws();
    KeyRemainders();
    hide Draw, AuthChain.Entry;
    assert AuthChain.DrawSizes(Prng(0x2e, 0x200012a), 1).0 == [1258];
    assert AuthChain.DrawSizes(Prng(0x2e, 0x200012a), 2).0 == [1258, 423];
    assert AuthChain.DrawSizes(Prng(0x2e, 0x200012a), 3).0 == [1258, 423, 578];
    assert AuthChain.DrawSizes(Prng(0x2e, 0x200012a), 4).0 == [1258, 423, 578, 32];
  }

  lemma SecondTable()
    ensures AuthChain.DrawSizes(Prng(0xb80200032aac1, 0xaa15010a8028f), 8)
            == ([190, 182, 795, 1354, 353, 15, 489, 478], Prng(0x8d834b596ec197d9, 0x13d56bb8e4d8f6d5))
  {
    KeyDraws();
    KeyRemainders();
    hide Draw, AuthChain.Entry;
    assert AuthChain.DrawSizes(Prng(0xb80200032aac1, 0xaa15010a8028f), 1).0 == [190];
    assert AuthChain.DrawSizes(Prng(0xb80200032aac1, 0xaa15010a8028f), 2).0 == [190, 182];
    assert AuthChain.DrawSizes(Prng(0xb80200032aac1, 0xaa15010a8028f), 3).0 == [190, 182, 795];
    assert AuthChain.DrawSizes(Prng(0xb80200032aac1, 0xaa15010a8028f), 4).0 == [190, 182, 795, 1354];
    assert AuthChain.DrawSizes(Prng(0xb80200032aac1, 0xaa15010a8028f), 5).0 == [190, 182, 795, 1354, 353];
    assert AuthChain.DrawSizes(Prng(0xb80200032aac1, 0xaa15010a8028f), 6).0 == [190, 182, 795, 1354, 353, 15];
    assert AuthChain.DrawSizes(Prng(0xb80200032aac1, 0xaa15010a8028f), 7).0 == [190, 182, 795, 1354, 353, 15, 489];
    assert AuthChain.DrawSizes(Prng(0xb80200032aac1, 0xaa15010a8028f), 8).0 == [190, 182, 795, 1354, 353, 15, 489, 478];
  }

  lemma SortedFirst()
    ensures AuthChain.Sorted([1258, 423, 578, 32]) == [32, 423, 578, 1258]
  {
  }

  lemma SortedSecond()
    ensures AuthChain.Sorted([190, 182, 795, 1354, 353, 15, 489, 478]) == [15, 182, 190, 353, 478, 489, 795, 1354]
  {
    hide AuthChain.Sorted, AuthChain.Insert;
    SortedLast();
    assert [353, 15, 489, 478][1..] == [15, 489, 478];
    Inserted1();
    SortedFrom([353, 15, 489, 478], [15, 478, 489], [15, 353, 478, 489]);
    assert [1354, 353, 15, 489, 478][1..] == [353, 15, 489, 478];
    Inserted2();
    SortedFrom([1354, 353, 15, 489, 478], [15, 353, 478, 489], [15, 353, 478, 489, 1354]);
    assert [795, 1354, 353, 15, 489, 478][1..] == [1354, 353, 15, 489, 478];
    Inserted3();
    SortedFrom([795, 1354, 353, 15, 489, 478], [15, 353, 478, 489, 1354], [15, 353, 478, 489, 795, 1354]);
    assert [182, 795, 1354, 353, 15, 489, 478][1..] == [795, 1354, 353, 15, 489, 478];
    Inserted4();
    SortedFrom([182, 795, 1354, 353, 15, 489, 478], [15, 353, 478, 489, 795, 1354],
      [15, 182, 353, 478, 489, 795, 1354]);
    assert [190, 182, 795, 1354, 353, 15, 489, 478][1..] == [182, 795, 1354, 353, 15, 489, 478];
    Inserted5();
    SortedFrom([190, 182, 795, 1354, 353, 15, 489, 478], [15, 182, 353, 478, 489, 795, 1354],
      [15, 182, 190, 353, 478, 489, 795, 1354]);
  }

  lemma SortedLast()
    ensures AuthChain.Sorted([15, 489, 478]) == [15, 478, 489]
  {
  }

  lemma SortedFrom(s: seq<nat>, t: seq<nat>, u: seq<nat>)
    requires s != [] && AuthChain.Sorted(s[1..]) == t && AuthChain.Insert(s[0], t) == u
    ensures AuthChain.Sorted(s) == u
  {
  }

  lemma Inserted1()
    ensures AuthChain.Insert(353, [15, 478, 489]) == [15, 353, 478, 489]
  {
  }

  lemma Inserted2()
    ensures AuthChain.Insert(1354, [15, 353, 478, 489]) == [15, 353, 478, 489, 1354]
  {
  }

  lemma Inserted3()
    ensures AuthChain.Insert(795, [15, 353, 478, 489, 1354]) == [15, 353, 478, 489, 795, 1354]
  {
  }

  lemma Inserted4()
    ensures AuthChain.Insert(182, [15, 353, 478, 489, 795, 1354]) == [15, 182, 353, 478, 489, 795, 1354]
  {
  }

  lemma Inserted5()
    ensures AuthChain.Insert(190, [15, 182, 353, 478, 489, 795, 1354]) == [15, 182, 190, 353, 478, 489, 795, 1354]
  {
  }
}
