/**
 * parsePageRange on sample inputs: the result for each follows from the
 * general lemmas about segments, ranges and the comma.
 */
module PageRangeExamples {
  import opened JsString
  import opened JsNumber
  import opened PageRange

  /** "1,3-5,7" on a document of at least 7 pages selects pages 1, 3, 4, 5 and 7. */
  lemma MixedExample(input: string, totalPages: nat)
    requires input == "1,3-5,7" && totalPages >= 7
    ensures AscendingElements(PageSet(input, totalPages), totalPages) == [0, 2, 3, 4, 6]
  {
    MixedText(input);
    PageSetOfNumber(1, totalPages);
    PageSetOfNumber(7, totalPages);
    PageSetOfRange(3, 5, [], totalPages);
    MixedShape(IntToString(1), NatToString(3) + "-" + (NatToString(5) + []), IntToString(7), totalPages);
  }

  lemma MixedText(input: string)
    requires input == "1,3-5,7"
    ensures input == IntToString(1) + "," + ((NatToString(3) + "-" + (NatToString(5) + [])) + "," + IntToString(7))
  {
    assert IntToString(1) == "1" && IntToString(7) == "7" && NatToString(3) == "3" && NatToString(5) == "5";
  }

  lemma MixedShape(one: string, range: string, seven: string, totalPages: nat)
    requires totalPages >= 7
    requires PageSet(one, totalPages) == {0} && PageSet(seven, totalPages) == {6}
    requires forall k :: k in PageSet(range, totalPages) <==> 0 <= k < totalPages && 3 <= k + 1 <= 5
    ensures AscendingElements(PageSet(one + "," + (range + "," + seven), totalPages), totalPages) == [0, 2, 3, 4, 6]
  {
    PageSetConcat(one, range + "," + seven, totalPages);
    PageSetConcat(range, seven, totalPages);
    ListingOfMixed(PageSet(one + "," + (range + "," + seven), totalPages), PageSet(range, totalPages), totalPages);
  }

  lemma ListingOfMixed(pages: set<int>, middle: set<int>, totalPages: nat)
    requires totalPages >= 7
    requires pages == {0} + (middle + {6})
    requires forall k :: k in middle <==> 0 <= k < totalPages && 3 <= k + 1 <= 5
    ensures AscendingElements(pages, totalPages) == [0, 2, 3, 4, 6]
  {
    var listing := [0, 2, 3, 4, 6];
    forall k
      ensures k in pages <==> k in listing
    {
      assert k in listing <==> k == 0 || 2 <= k <= 4 || k == 6;
    }
    SortedListing(pages, totalPages, listing);
  }

  /** Repeating a page, or naming it again inside a range, changes nothing: "1,1,1-2" selects pages 1 and 2. */
  lemma RepeatExample(input: string, totalPages: nat)
    requires input == "1,1,1-2" && totalPages >= 2
    ensures AscendingElements(PageSet(input, totalPages), totalPages) == [0, 1]
  {
    var one, range := IntToString(1), NatToString(1) + "-" + (NatToString(2) + []);
    assert input == one + "," + (one + "," + range) by {
      assert one == "1" && range == "1-2";
    }
    PageSetOfNumber(1, totalPages);
    PageSetOfRange(1, 2, [], totalPages);
    PageSetConcat(one, one + "," + range, totalPages);
    PageSetConcat(one, range, totalPages);
    ListingOfRepeat(PageSet(input, totalPages), PageSet(range, totalPages), totalPages);
  }

  lemma ListingOfRepeat(pages: set<int>, range: set<int>, totalPages: nat)
    requires totalPages >= 2
    requires pages == {0} + ({0} + range)
    requires forall k :: k in range <==> 0 <= k < totalPages && 1 <= k + 1 <= 2
    ensures AscendingElements(pages, totalPages) == [0, 1]
  {
    var listing := [0, 1];
    forall k
      ensures k in pages <==> k in listing
    {
      assert k in listing <==> k == 0 || k == 1;
    }
    SortedListing(pages, totalPages, listing);
  }

  /** A range past the end is cut at the last page: "1-1000" on a 10-page document selects all ten. */
  lemma ClampedRangeExample(input: string)
    requires input == "1-1000"
    ensures AscendingElements(PageSet(input, 10), 10) == [0, 1, 2, 3, 4, 5, 6, 7, 8, 9]
  {
    assert input == NatToString(1) + "-" + (NatToString(1000) + []) by {
      assert NatToString(1000) == "1000";
    }
    PageSetOfRange(1, 1000, [], 10);
    ListingOfAll(PageSet(input, 10));
  }

  lemma ListingOfAll(pages: set<int>)
    requires forall k :: k in pages <==> 0 <= k < 10 && 1 <= k + 1 <= 1000
    ensures AscendingElements(pages, 10) == [0, 1, 2, 3, 4, 5, 6, 7, 8, 9]
  {
    var listing := [0, 1, 2, 3, 4, 5, 6, 7, 8, 9];
    forall k
      ensures k in pages <==> k in listing
    {
      assert k in listing <==> 0 <= k < 10;
    }
    SortedListing(pages, 10, listing);
  }

  /** An inverted range selects nothing: "5-2" gives the empty list. */
  lemma InvertedRangeExample(input: string, totalPages: nat)
    requires input == "5-2"
    ensures AscendingElements(PageSet(input, totalPages), totalPages) == []
  {
    assert input == NatToString(5) + "-" + (NatToString(2) + []);
    PageSetOfRange(5, 2, [], totalPages);
    assert PageSet(input, totalPages) == {};
  }

  /** Pieces after a second hyphen are ignored: "1-3-9" selects pages 1 to 3. */
  lemma ExtraHyphenExample(input: string, totalPages: nat)
    requires input == "1-3-9" && totalPages >= 3
    ensures AscendingElements(PageSet(input, totalPages), totalPages) == [0, 1, 2]
  {
    assert input == NatToString(1) + "-" + (NatToString(3) + "-9");
    PageSetOfRange(1, 3, "-9", totalPages);
    ListingOfFirstThree(PageSet(input, totalPages), totalPages);
  }

  lemma ListingOfFirstThree(pages: set<int>, totalPages: nat)
    requires totalPages >= 3
    requires forall k :: k in pages <==> 0 <= k < totalPages && 1 <= k + 1 <= 3
    ensures AscendingElements(pages, totalPages) == [0, 1, 2]
  {
    var listing := [0, 1, 2];
    forall k
      ensures k in pages <==> k in listing
    {
      assert k in listing <==> 0 <= k < 3;
    }
    SortedListing(pages, totalPages, listing);
  }

  /** Page 0 and a page past the end are skipped without an error: "0,100" on 10 pages gives nothing. */
  lemma OutOfBoundsExample(input: string)
    requires input == "0,100"
    ensures AscendingElements(PageSet(input, 10), 10) == []
  {
    assert input == IntToString(0) + "," + IntToString(100) by {
      assert IntToString(100) == "100";
    }
    PageSetOfNumber(0, 10);
    PageSetOfNumber(100, 10);
    PageSetConcat(IntToString(0), IntToString(100), 10);
    assert PageSet(input, 10) == {};
  }

  /** A negative number is a range with an empty start: "-5" gives nothing. */
  lemma NegativeExample(input: string, totalPages: nat)
    requires input == "-5"
    ensures AscendingElements(PageSet(input, totalPages), totalPages) == []
  {
    assert input == IntToString(-5);
    PageSetOfNumber(-5, totalPages);
    assert PageSet(input, totalPages) == {};
  }

  /** Text that is not a number adds nothing: "abc" gives nothing. */
  lemma WordExample(input: string, totalPages: nat)
    requires input == "abc"
    ensures AscendingElements(PageSet(input, totalPages), totalPages) == []
  {
    PageSetOfSegment(input, totalPages);
    NumeralFreeText(input);
    ParseIntWordExample(input);
    assert PageSet(input, totalPages) == {};
  }

  lemma NumeralFreeText(input: string)
    requires input == "abc"
    ensures Trim(input) == input && '-' !in input
  {
    assert [] + input + [] == input;
    TrimPadded([], input, []);
  }

  /** The empty text gives the empty list. */
  lemma EmptyExample(totalPages: nat)
    ensures AscendingElements(PageSet("", totalPages), totalPages) == []
  {
    PageSetEmpty(totalPages);
  }
}
