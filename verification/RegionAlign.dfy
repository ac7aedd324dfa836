/** Alignment on 32-bit words, and what it does near the end of the address space. */
module RegionAlign {
  import opened Arith
  import opened RegionSpec

  predicate Multiple(x: int, p: int)
    requires p > 0
  {
    x % p == 0
  }

  /** `ALIGN_DOWN` */
  function AlignDown(x: int, p: int): int
    requires p > 0
  {
    x / p * p
  }

  /** `ALIGN_UP`; the sum is a 32-bit word. */
  function AlignUp(x: int, p: int): int
    requires p > 0
  {
    AlignDown((x + p - 1) % ADDRESS_MOD, p)
  }

  /** The smallest multiple of p that is not below x. */
  function RoundUp(x: int, p: int): int
    requires p > 0
  {
    (x + p - 1) / p * p
  }

  lemma RoundUpIs(x: int, p: int, y: int)
    requires p > 0 && Multiple(y, p) && x <= y < x + p
    ensures RoundUp(x, p) == y
  {
    DivModUnique(x + p - 1, p, y / p, x + p - 1 - y);
  }

  lemma RoundUpRange(x: int, p: int)
    requires p > 0
    ensures x <= RoundUp(x, p) < x + p && Multiple(RoundUp(x, p), p)
  {
    ModRange(x + p - 1, p);
    DivModUnique(RoundUp(x, p), p, (x + p - 1) / p, 0);
  }

  lemma AlignDownRange(x: int, p: int)
    requires p > 0
    ensures x - p < AlignDown(x, p) <= x && Multiple(AlignDown(x, p), p)
  {
    ModRange(x, p);
    DivModUnique(AlignDown(x, p), p, x / p, 0);
  }

  /** Aligning a word up rounds it up, unless it is so close to the end of the address space that it becomes zero. */
  lemma AlignUpIs(x: int, p: int)
    requires 0 <= x < ADDRESS_MOD && 0 < p <= ADDRESS_MOD && Multiple(ADDRESS_MOD, p)
    ensures AlignUp(x, p) == if x <= ADDRESS_MOD - p then RoundUp(x, p) else 0
    ensures AlignUp(x, p) >= x <==> x <= ADDRESS_MOD - p
  {
    RoundUpRange(x, p);
    if x <= ADDRESS_MOD - p {
      assert x + p - 1 < ADDRESS_MOD;
    } else {
      DivModUnique(x + p - 1, ADDRESS_MOD, 1, x + p - 1 - ADDRESS_MOD);
      DivModUnique(x + p - 1 - ADDRESS_MOD, p, 0, x + p - 1 - ADDRESS_MOD);
    }
  }

  lemma PageDivides(bits: nat)
    requires bits <= 20
    ensures Pow2(bits) <= MB
    ensures Multiple(MB, Pow2(bits)) && Multiple(ADDRESS_MOD, Pow2(bits)) && Multiple(ADDRESS_MOD, MB)
  {
    var p, n := Pow2(bits), Pow2(20 - bits);
    PageProduct(bits);
    MulMono(1, n, p);
    DivModUnique(MB, p, n, 0);
    Assoc(4096, n, p);
    DivModUnique(ADDRESS_MOD, p, 4096 * n, 0);
  }

  lemma PageProduct(bits: nat)
    requires bits <= 20
    ensures MB == Pow2(20 - bits) * Pow2(bits)
  {
    Pow2Add(20 - bits, bits);
    assert Pow2(5) == 32;
    Pow2Add(5, 5);
    Pow2Add(10, 10);
  }

  lemma MultipleOfMultiple(x: int, bits: nat)
    requires bits <= 20 && Multiple(x, MB)
    ensures Multiple(x, Pow2(bits))
  {
    PageProduct(bits);
    Assoc(x / MB, Pow2(20 - bits), Pow2(bits));
    DivModUnique(x, Pow2(bits), x / MB * Pow2(20 - bits), 0);
  }

  lemma MultipleGap(x: int, y: int, p: int)
    requires p > 0 && Multiple(x, p) && Multiple(y, p) && x < y
    ensures x + p <= y
  {
    var a, b := x / p, y / p;
    assert x == a * p && y == b * p;
    if b <= a {
      MulMono(b, a, p);
    } else {
      MulMono(a + 1, b, p);
      Distribute(a, 1, p);
    }
  }

  /** Rounding up to pages and then to megabytes is rounding up to megabytes. */
  lemma RoundTwice(x: int, bits: nat)
    requires bits <= 20
    ensures RoundUp(RoundUp(x, Pow2(bits)), MB) == RoundUp(x, MB)
  {
    hide Multiple, RoundUp;
    var p := Pow2(bits);
    var a := RoundUp(x, p);
    var b := RoundUp(a, MB);
    RoundUpRange(x, p);
    RoundUpRange(a, MB);
    NoMultipleBetween(x, a, b, bits);
    RoundUpIs(x, MB, b);
  }

  lemma NoMultipleBetween(x: int, a: int, b: int, bits: nat)
    requires bits <= 20 && a < x + Pow2(bits) && Multiple(a, Pow2(bits)) && Multiple(b, MB) && b < a + MB
    ensures b < x + MB
  {
    DivModUnique(b - MB, MB, b / MB - 1, 0);
    MultipleOfMultiple(b - MB, bits);
    MultipleGap(b - MB, a, Pow2(bits));
  }

  /** How many bytes `mreg_alloc` looks for: it rounds to pages, and to megabytes if that is a megabyte or more. */
  function Rounded(size: int, bits: nat): int {
    var a := AlignUp(size, Pow2(bits));
    if a >= MB then AlignUp(a, MB) else a
  }

  /** The rounded size holds the request exactly when the request is at most the address space less a megabyte. */
  lemma RoundedHolds(size: int, bits: nat)
    requires bits <= 20 && 0 <= size < ADDRESS_MOD
    ensures size <= Rounded(size, bits) <==> size <= ADDRESS_MOD - MB
    ensures size <= ADDRESS_MOD - MB ==>
      Rounded(size, bits) == if RoundUp(size, Pow2(bits)) < MB then RoundUp(size, Pow2(bits)) else RoundUp(size, MB)
    ensures size > ADDRESS_MOD - MB ==> Rounded(size, bits) == 0
  {
    hide Multiple, RoundUp, AlignUp;
    var p := Pow2(bits);
    PageDivides(bits);
    AlignUpIs(size, p);
    RoundUpRange(size, p);
    RoundTwice(size, bits);
    RoundUpRange(size, MB);
    var a := RoundUp(size, p);
    if MB <= a < ADDRESS_MOD {
      AlignUpIs(a, MB);
      EndMultiple(bits);
      if size <= ADDRESS_MOD - MB < a {
        MultipleGap(ADDRESS_MOD - MB, a, p);
      }
    }
  }

  lemma RoundedCases(size: int, bits: nat)
    requires bits <= 20 && 0 < size < ADDRESS_MOD && (size <= ADDRESS_MOD - MB || size > ADDRESS_MOD - Pow2(bits))
    ensures var a := AlignUp(size, Pow2(bits));
      && 0 <= a && (a < MB ==> Rounded(size, bits) == a)
      && (a >= MB ==> Rounded(size, bits) == AlignUp(a, MB) == AlignUp(a, MB) / MB * MB && MB <= AlignUp(a, MB) < ADDRESS_MOD)
      && (size <= Rounded(size, bits) <==> size <= ADDRESS_MOD - MB)
      && (size > ADDRESS_MOD - MB ==> a == 0)
  {
    hide Multiple, RoundUp, AlignUp;
    var p := Pow2(bits);
    PageDivides(bits);
    AlignUpIs(size, p);
    RoundUpRange(size, p);
    RoundedHolds(size, bits);
    var a := RoundUp(size, p);
    if MB <= a < ADDRESS_MOD && size <= ADDRESS_MOD - MB {
      AlignUpIs(a, MB);
      RoundUpRange(a, MB);
      MultipleParts(RoundUp(a, MB), MB);
      EndMultiple(bits);
      if a > ADDRESS_MOD - MB {
        MultipleGap(ADDRESS_MOD - MB, a, p);
      }
    }
  }

  lemma LastMegabyte()
    ensures Multiple(ADDRESS_MOD - MB, MB)
  {
  }

  lemma EndMultiple(bits: nat)
    requires bits <= 20
    ensures Multiple(ADDRESS_MOD - MB, Pow2(bits))
  {
    DivModUnique(ADDRESS_MOD - MB, MB, 4095, 0);
    MultipleOfMultiple(ADDRESS_MOD - MB, bits);
  }

  /** What `mreg_alloc_at` looks for: whole pages, and the megabyte they should lie in. */
  datatype Window = Window(start: int, size: int, meg: int, inside: bool)

  function WindowOf(adr: int, size: int, bits: nat): Window {
    var p := Pow2(bits);
    var start := AlignDown(adr, p);
    var length := RoundUp(size + adr - start, p);
    Window(start, length, AlignDown(adr, MB), 0 < start % MB + length <= MB)
  }

  /** The word arithmetic of `mreg_alloc_at` gives the window. */
  lemma WindowIs(adr: int, size: int, bits: nat)
    requires bits <= 20 && 0 <= adr < ADDRESS_MOD && 0 <= size && size + adr - AlignDown(adr, Pow2(bits)) <= ADDRESS_MOD - MB
    ensures var w := WindowOf(adr, size, bits);
      && AlignDown(adr, Pow2(bits)) == w.start && AlignUp((size + adr - w.start) % ADDRESS_MOD, Pow2(bits)) == w.size
      && AlignDown(adr, MB) == w.meg && 0 <= w.meg <= w.start <= adr && w.start < w.meg + MB <= ADDRESS_MOD && Multiple(w.meg, MB)
      && Multiple(w.start - w.meg, Pow2(bits)) && adr + size <= w.start + w.size
      && (w.inside <==> w.start / MB == (w.start + w.size - 1) % ADDRESS_MOD / MB)
      && (w.inside ==> w.size <= MB)
  {
    hide Multiple, RoundUp, AlignUp, AlignDown;
    WindowStart(adr, bits);
    var w := WindowOf(adr, size, bits);
    WindowSize(size + adr - w.start, bits);
    SameMegabyte(w.start, w.meg, w.size);
  }

  lemma WindowSize(length: int, bits: nat)
    requires bits <= 20 && 0 <= length <= ADDRESS_MOD - MB
    ensures AlignUp(length % ADDRESS_MOD, Pow2(bits)) == RoundUp(length, Pow2(bits))
    ensures length <= RoundUp(length, Pow2(bits)) <= ADDRESS_MOD - MB
  {
    hide Multiple, RoundUp, AlignUp;
    var p := Pow2(bits);
    PageDivides(bits);
    AlignUpIs(length, p);
    RoundUpRange(length, p);
    EndMultiple(bits);
    if RoundUp(length, p) > ADDRESS_MOD - MB {
      MultipleGap(ADDRESS_MOD - MB, RoundUp(length, p), p);
    }
  }

  lemma WindowStart(adr: int, bits: nat)
    requires bits <= 20 && 0 <= adr < ADDRESS_MOD
    ensures var start, meg := AlignDown(adr, Pow2(bits)), AlignDown(adr, MB);
      0 <= meg <= start <= adr < meg + MB <= ADDRESS_MOD && Multiple(meg, MB) && Multiple(start - meg, Pow2(bits))
  {
    hide Multiple, AlignDown;
    var p := Pow2(bits);
    var start, meg := AlignDown(adr, p), AlignDown(adr, MB);
    AlignDownRange(adr, p);
    AlignDownRange(adr, MB);
    PageDivides(bits);
    MultipleOfMultiple(meg, bits);
    if start < meg {
      MultipleGap(start, meg, p);
    }
    MultipleDifference(start, meg, p);
  }

  lemma MultipleDifference(x: int, y: int, p: int)
    requires p > 0 && Multiple(x, p) && Multiple(y, p)
    ensures Multiple(x - y, p)
  {
    var a, b := x / p, y / p;
    assert x == a * p && y == b * p;
    Distribute(a, b, p);
    DivModUnique(x - y, p, a - b, 0);
  }

  lemma SameMegabyte(start: int, meg: int, size: int)
    requires 0 <= meg <= start < meg + MB <= ADDRESS_MOD && Multiple(meg, MB) && 0 <= size <= ADDRESS_MOD - MB
    ensures start / MB == (start + size - 1) % ADDRESS_MOD / MB <==> 0 < start % MB + size <= MB
  {
    DivModUnique(start, MB, meg / MB, start - meg);
    var e := start + size - 1;
    if 0 <= e < ADDRESS_MOD {
    } else if e < 0 {
      DivModUnique(e, ADDRESS_MOD, -1, ADDRESS_MOD - 1);
    } else {
      DivModUnique(e, ADDRESS_MOD, 1, e - ADDRESS_MOD);
    }
  }

  /** The pages of a range to attach, and the whole megabytes among them; the ends are exclusive. */
  datatype Cuts = Cuts(start: int, meg: int, megEnd: int, end: int)

  function CutsOf(adr: int, size: int, bits: nat): Cuts {
    var start, end := RoundUp(adr, Pow2(bits)), AlignDown(adr + size, Pow2(bits));
    Cuts(start, RoundUp(start, MB), AlignDown(end, MB), end)
  }

  /** The range reaches a megabyte boundary inside the address space. */
  predicate Touches(c: Cuts) {
    c.meg <= c.end && c.meg < ADDRESS_MOD
  }

  lemma CutsRange(adr: int, size: int, bits: nat)
    requires bits <= 20 && 0 <= adr && 2 * Pow2(bits) <= size < ADDRESS_MOD && adr + size <= ADDRESS_MOD
    ensures var c, p := CutsOf(adr, size, bits), Pow2(bits);
      && adr <= c.start < adr + p && c.start < c.end <= adr + size && Multiple(c.start, p) && Multiple(c.end, p)
      && c.start <= c.meg < c.start + MB && Multiple(c.meg, MB) && c.megEnd <= c.end < c.megEnd + MB && Multiple(c.megEnd, MB)
      && c.meg <= ADDRESS_MOD && 0 <= c.megEnd
      && (c.meg <= c.end ==> c.meg <= c.megEnd)
  {
    hide Multiple, RoundUp, AlignDown;
    var c, p := CutsOf(adr, size, bits), Pow2(bits);
    RoundUpRange(adr, p);
    AlignDownRange(adr + size, p);
    RoundUpRange(c.start, MB);
    AlignDownRange(c.end, MB);
  }

  lemma AlignDownIs(x: int, p: int, y: int)
    requires p > 0 && Multiple(y, p) && y <= x < y + p
    ensures AlignDown(x, p) == y
  {
    DivModUnique(x, p, y / p, x - y);
  }

  /** What the word arithmetic of `mreg_region_attach` computes. */
  datatype Words = Words(adr0: int, size0: int, adr1: int, size1: int)

  function WordsOf(adr: int, size: int, bits: nat): Words {
    var adr0 := AlignUp(adr, Pow2(bits));
    var size0 := AlignDown(Address(size + adr - adr0), Pow2(bits));
    var adr1 := AlignUp(adr0, MB);
    Words(adr0, size0, adr1, AlignDown(Address(size0 + adr0 - adr1), MB))
  }

  /** The first two words are always right. */
  lemma PagesRight(adr: int, size: int, bits: nat)
    requires bits <= 20 && 0 <= adr && 2 * Pow2(bits) <= size < ADDRESS_MOD && adr + size <= ADDRESS_MOD
    ensures var c, w := CutsOf(adr, size, bits), WordsOf(adr, size, bits);
      w.adr0 == c.start && w.size0 == c.end - c.start && w.adr1 == Address(c.meg)
  {
    hide Address, Multiple, RoundUp, AlignDown, AlignUp;
    CutsRange(adr, size, bits);
    StartRight(adr, bits);
    AlignDownRange(adr + size, Pow2(bits));
    LengthRight(adr, size, Pow2(bits), RoundUp(adr, Pow2(bits)), AlignDown(adr + size, Pow2(bits)));
    NextMegabyte(RoundUp(adr, Pow2(bits)));
  }

  lemma StartRight(adr: int, bits: nat)
    requires bits <= 20 && 0 <= adr <= ADDRESS_MOD - Pow2(bits)
    ensures AlignUp(adr, Pow2(bits)) == RoundUp(adr, Pow2(bits))
  {
    PageDivides(bits);
    AlignUpIs(adr, Pow2(bits));
  }

  lemma LengthRight(adr: int, size: int, p: int, start: int, end: int)
    requires p > 0 && Multiple(start, p) && Multiple(end, p) && 2 * p <= size < ADDRESS_MOD
    requires adr <= start < adr + p && end <= adr + size < end + p
    ensures AlignDown(Address(size + adr - start), p) == end - start
  {
    hide Address, Multiple, AlignDown;
    MultipleDifference(end, start, p);
    AddressIs(size + adr - start, 0);
    AlignDownIs(size + adr - start, p, end - start);
  }

  lemma NextMegabyte(x: int)
    requires 0 <= x < ADDRESS_MOD
    ensures AlignUp(x, MB) == Address(RoundUp(x, MB))
  {
    hide AlignUp, RoundUp;
    AlignUpIs(x, MB);
    RoundUpRange(x, MB);
    if x > ADDRESS_MOD - MB {
      RoundUpIs(x, MB, ADDRESS_MOD);
    }
  }

  lemma MultipleParts(x: int, p: int)
    requires p > 0 && Multiple(x, p)
    ensures x / p * p == x
  {
  }

  /** The megabytes are the right ones, inside the range, exactly when it reaches a boundary inside the address space. */
  lemma MegabytesRight(adr: int, size: int, bits: nat)
    requires bits <= 20 && 0 <= adr && 2 * Pow2(bits) <= size < ADDRESS_MOD && adr + size <= ADDRESS_MOD
    ensures var c, w := CutsOf(adr, size, bits), WordsOf(adr, size, bits);
      && (w.adr0 <= w.adr1 && w.adr1 + w.size1 <= w.adr0 + w.size0 <==> Touches(c))
      && (Touches(c) ==> w.adr1 == c.meg && w.size1 == c.megEnd - c.meg)
  {
    hide Address, Multiple, RoundUp, AlignDown, AlignUp;
    var c, w := CutsOf(adr, size, bits), WordsOf(adr, size, bits);
    CutsRange(adr, size, bits);
    PagesRight(adr, size, bits);
    assert w.size0 + w.adr0 - w.adr1 == c.end - w.adr1;
    MainRight(c);
  }

  lemma MainRight(c: Cuts)
    requires 0 <= c.start < c.end <= ADDRESS_MOD && c.end - c.start < ADDRESS_MOD && Multiple(c.meg, MB) && Multiple(c.megEnd, MB)
    requires c.start <= c.meg < c.start + MB && c.meg <= ADDRESS_MOD && c.megEnd <= c.end < c.megEnd + MB
    ensures var adr1 := Address(c.meg);
      var size1 := AlignDown(Address(c.end - adr1), MB);
      && (c.start <= adr1 && adr1 + size1 <= c.end <==> Touches(c))
      && (Touches(c) ==> adr1 == c.meg && size1 == c.megEnd - c.meg)
  {
    hide Address, Multiple, AlignDown;
    if Touches(c) {
      AddressIs(c.meg, 0);
      AddressIs(c.end - c.meg, 0);
      MultipleDifference(c.megEnd, c.meg, MB);
      AlignDownIs(c.end - c.meg, MB, c.megEnd - c.meg);
    } else if c.meg < ADDRESS_MOD {
      AddressIs(c.meg, 0);
      AddressIs(c.end - c.meg, -1);
      LastMegabyte();
      AlignDownIs(ADDRESS_MOD + c.end - c.meg, MB, ADDRESS_MOD - MB);
    } else {
      AddressIs(ADDRESS_MOD, 1);
    }
  }

  lemma AddressIs(x: int, k: int)
    requires k * ADDRESS_MOD <= x < (k + 1) * ADDRESS_MOD
    ensures Address(x) == x - k * ADDRESS_MOD
  {
    DivModUnique(x, ADDRESS_MOD, k, x - k * ADDRESS_MOD);
  }

  /** The test of `mreg_region_attach` for pages behind the last megabyte, which has to look around the end of the words. */
  lemma TailTest(c: Cuts)
    requires 0 <= c.start < c.end <= ADDRESS_MOD && c.start <= c.meg <= c.megEnd <= c.end < c.megEnd + MB
    ensures var end0, end1 := Address(c.end - 1), Address(c.megEnd - 1);
      && (end0 != end1 && end0 >= Address(1 + end1) <==> c.megEnd < c.end)
      && end0 == c.end - 1 && (c.meg < c.megEnd ==> end1 == c.megEnd - 1) && (c.megEnd < c.end ==> Address(end1 + 1) == c.megEnd)
  {
    hide Address;
    AddressIs(c.end - 1, 0);
    if c.megEnd == 0 {
      AddressIs(-1, -1);
      AddressIs(ADDRESS_MOD, 1);
    } else {
      AddressIs(c.megEnd - 1, 0);
      if c.megEnd == ADDRESS_MOD {
        AddressIs(ADDRESS_MOD, 1);
      } else {
        AddressIs(c.megEnd, 0);
      }
    }
  }

  /** The largest request with 4-kilobyte pages is rounded to nothing. */
  lemma LargestRequest()
    ensures Rounded(ADDRESS_MOD - 1, 12) == 0
  {
    RoundedHolds(ADDRESS_MOD - 1, 12);
  }

  /** 0xFFF00001 bytes are large enough for megabytes, but rounding to them leaves none. */
  lemma SizeWithoutMegabytes()
    ensures AlignUp(0xFFF0_0001, Pow2(12)) >= MB && AlignUp(AlignUp(0xFFF0_0001, Pow2(12)), MB) == 0 == Rounded(0xFFF0_0001, 12)
  {
    hide Rounded;
    PageSize();
    PageDivides(12);
    AlignUpIs(0xFFF0_0001, 4096);
    RoundUpIs(0xFFF0_0001, 4096, 0xFFF0_1000);
    AlignUpIs(0xFFF0_1000, MB);
    RoundedHolds(0xFFF0_0001, 12);
  }

  lemma PageSize()
    ensures Pow2(12) == 4096
  {
    assert Pow2(6) == 64;
    Pow2Add(6, 6);
  }

  /** Two pages inside a megabyte make `mreg_region_attach` claim megabytes beyond them. */
  lemma PagesInsideMegabyte()
    ensures var w := WordsOf(MB + 0x1000, 0x2000, 12); w.adr1 + w.size1 > w.adr0 + w.size0
  {
    hide WordsOf, RoundUp, AlignDown;
    PageSize();
    var c := CutsOf(MB + 0x1000, 0x2000, 12);
    RoundUpIs(MB + 0x1000, 4096, MB + 0x1000);
    AlignDownIs(MB + 0x3000, 4096, MB + 0x3000);
    RoundUpIs(MB + 0x1000, MB, 2 * MB);
    MegabytesRight(MB + 0x1000, 0x2000, 12);
    PagesRight(MB + 0x1000, 0x2000, 12);
    AddressIs(2 * MB, 0);
  }
}
