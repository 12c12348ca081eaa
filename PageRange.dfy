/**
 * parsePageRange: text such as "1,3-5,7" and a page count become the sorted,
 * duplicate-free list of zero-based indices of the pages it names. The text
 * is cut at commas and each piece trimmed; a piece with a hyphen is an
 * inclusive range of one-based pages clamped to the document, any other piece
 * a single one-based page kept only when it exists. Pieces that do not parse
 * add nothing and raise nothing.
 */
module PageRange {
  import opened Wrappers
  import opened JsString
  import opened JsNumber

  function Max(a: int, b: int): int { if a >= b then a else b }

  function Min(a: int, b: int): int { if a <= b then a else b }

  /**
   * `rangeStr.split(',').map(s => s.trim())`: there is always a segment (the
   * empty text has one, itself empty), and no segment starts or ends with
   * white space.
   */
  function Segments(rangeStr: string): (parts: seq<string>)
    ensures |parts| >= 1
    ensures forall i :: 0 <= i < |parts| ==> Trimmed(parts[i])
  {
    var pieces := Split(rangeStr, ',');
    TrimmedPieces(pieces);
    seq(|pieces|, i requires 0 <= i < |pieces| => Trim(pieces[i]))
  }

  /** Every trimmed piece is free of white space at both ends. */
  lemma TrimmedPieces(pieces: seq<string>)
    ensures forall i :: 0 <= i < |pieces| ==> Trimmed(Trim(pieces[i]))
  {
    forall i | 0 <= i < |pieces|
      ensures Trimmed(Trim(pieces[i]))
    {
      TrimSpec(pieces[i]);
    }
  }

  /**
   * The zero-based indices of the one-based pages first..last, inclusive, as
   * the counting loop `for (i = first; i <= last; i++) pages.add(i - 1)` adds
   * them; empty when first > last.
   */
  function Pages(first: int, last: int): (r: set<int>)
    ensures forall k :: k in r <==> first - 1 <= k < last
    decreases last - first
  {
    if last < first then {} else Pages(first, last - 1) + {last - 1}
  }

  /**
   * What one trimmed segment adds. With a hyphen: the first two pieces of
   * `part.split('-')`, each trimmed and read with parseInt, bound a range;
   * further pieces are ignored. Without one: parseInt(part) names one page.
   */
  function SegmentPages(part: string, totalPages: nat): (r: set<int>)
    ensures forall k :: k in r ==> 0 <= k < totalPages
  {
    if '-' in part then
      SplitAtSeparator(part, '-');
      var pieces := Split(part, '-');
      RangePages(ParseInt(Trim(pieces[0])), ParseInt(Trim(pieces[1])), totalPages)
    else
      SinglePage(ParseInt(part), totalPages)
  }

  /** The range max(1, start)..min(totalPages, end); nothing when either end is NaN. */
  function RangePages(start: Option<int>, end: Option<int>, totalPages: nat): (r: set<int>)
    ensures forall k :: k in r ==> 0 <= k < totalPages
  {
    if start.None? || end.None? then {}
    else Pages(Max(1, start.value), Min(totalPages, end.value))
  }

  /** Page n of a single-page segment is index n - 1, kept only when 1 <= n <= totalPages. */
  function SinglePage(pageNum: Option<int>, totalPages: nat): (r: set<int>)
    ensures forall k :: k in r ==> 0 <= k < totalPages
  {
    if pageNum.Some? && 1 <= pageNum.value <= totalPages then {pageNum.value - 1} else {}
  }

  /** What each segment adds, segment by segment. */
  function Contributions(parts: seq<string>, totalPages: nat): seq<set<int>>
  {
    seq(|parts|, i requires 0 <= i < |parts| => SegmentPages(parts[i], totalPages))
  }

  /** The union of several sets of indices, one after the other. */
  function UnionAll(sets: seq<set<int>>): set<int>
  {
    if sets == [] then {} else UnionAll(sets[..|sets| - 1]) + sets[|sets| - 1]
  }

  /** The set of zero-based page indices that the range text selects: the union of what its segments add. */
  function PageSet(rangeStr: string, totalPages: nat): (r: set<int>)
    ensures forall k :: k in r ==> 0 <= k < totalPages
  {
    var sets := Contributions(Segments(rangeStr), totalPages);
    UnionAllBound(sets, totalPages);
    UnionAll(sets)
  }

  /** An index is in the union exactly when it is in one of the sets. */
  lemma {:induction false} UnionAllMembership(sets: seq<set<int>>, k: int)
    ensures k in UnionAll(sets) <==> exists i :: 0 <= i < |sets| && k in sets[i]
  {
    if sets != [] {
      var front := sets[..|sets| - 1];
      UnionAllMembership(front, k);
      if k in UnionAll(front) {
        var i :| 0 <= i < |front| && k in front[i];
        assert k in sets[i];
      }
      if exists i :: 0 <= i < |sets| && k in sets[i] {
        var i :| 0 <= i < |sets| && k in sets[i];
        if i < |front| {
          assert k in front[i];
        }
      }
    }
  }

  lemma UnionAllBound(sets: seq<set<int>>, bound: nat)
    requires forall i, k :: 0 <= i < |sets| && k in sets[i] ==> 0 <= k < bound
    ensures forall k :: k in UnionAll(sets) ==> 0 <= k < bound
  {
    forall k | k in UnionAll(sets)
      ensures 0 <= k < bound
    {
      UnionAllMembership(sets, k);
    }
  }

  /** The union over one more set adds that set. */
  lemma UnionAllPrefix(sets: seq<set<int>>, j: nat)
    requires j < |sets|
    ensures UnionAll(sets[..j + 1]) == UnionAll(sets[..j]) + sets[j]
  {
    assert sets[..j + 1][..j] == sets[..j];
  }

  predicate StrictlyIncreasing(s: seq<int>) {
    forall i, j :: 0 <= i < j < |s| ==> s[i] < s[j]
  }

  /**
   * `Array.from(pages).sort((a, b) => a - b)` for a set of indices below
   * bound: its elements in increasing order, each once.
   */
  function AscendingElements(s: set<int>, bound: nat): (r: seq<int>)
    requires forall k :: k in s ==> 0 <= k < bound
    ensures StrictlyIncreasing(r)
    ensures forall k :: k in r <==> k in s
    ensures |r| == |s|
    ensures forall i :: 0 <= i < |r| ==> 0 <= r[i] < bound
  {
    if bound == 0 then
      assert forall k :: k !in s;
      assert s == {};
      []
    else
      var rest := s - {bound - 1};
      var below := AscendingElements(rest, bound - 1);
      if bound - 1 in s then
        assert |rest| == |s| - 1;
        var r := below + [bound - 1];
        assert forall k :: k in r <==> k in below || k == bound - 1;
        r
      else
        assert rest == s;
        below
  }

  /** There is only one increasing listing of a set: the sorted output is determined by its elements. */
  lemma {:induction false} AscendingUnique(a: seq<int>, b: seq<int>)
    requires StrictlyIncreasing(a) && StrictlyIncreasing(b)
    requires forall k :: k in a <==> k in b
    ensures a == b
  {
    if a != [] {
      assert a[0] in a;
      assert a[0] in b;
    }
    if b != [] {
      assert b[0] in b;
      assert b[0] in a;
    }
    if a != [] {
      assert a[0] == b[0];
      forall k ensures k in a[1..] <==> k in b[1..] {
        if k in a[1..] {
          assert k > a[0];
          assert k in b && k != b[0];
        }
        if k in b[1..] {
          assert k > b[0];
          assert k in a && k != a[0];
        }
      }
      AscendingUnique(a[1..], b[1..]);
      assert a == [a[0]] + a[1..] && b == [b[0]] + b[1..];
    }
  }

  /** parsePageRange(rangeStr, totalPages): the segments' indices collected in a set, then listed in increasing order. */
  method ParsePageRange(rangeStr: string, totalPages: nat) returns (indices: seq<int>)
    ensures indices == AscendingElements(PageSet(rangeStr, totalPages), totalPages)
    ensures StrictlyIncreasing(indices)
    ensures forall k :: k in indices <==> k in PageSet(rangeStr, totalPages)
    ensures forall i :: 0 <= i < |indices| ==> 0 <= indices[i] < totalPages
  {
    var pages: set<int> := {};
    var parts := Segments(rangeStr);
    ghost var sets := Contributions(parts, totalPages);
    for j := 0 to |parts|
      invariant pages == UnionAll(sets[..j])
    {
      pages := AddSegment(pages, parts[j], totalPages);
      assert sets[j] == SegmentPages(parts[j], totalPages);
      UnionAllPrefix(sets, j);
    }
    assert sets[..|parts|] == sets;
    assert pages == PageSet(rangeStr, totalPages);
    indices := AscendingElements(pages, totalPages);
  }

  /** One pass of the loop over the segments: the segment's pages added to those collected so far. */
  method AddSegment(pages: set<int>, part: string, totalPages: nat) returns (added: set<int>)
    ensures added == pages + SegmentPages(part, totalPages)
  {
    if '-' in part {
      SplitAtSeparator(part, '-');
      var pieces := Split(part, '-');
      added := AddRangeSegment(pages, ParseInt(Trim(pieces[0])), ParseInt(Trim(pieces[1])), totalPages);
    } else {
      added := AddSinglePage(pages, ParseInt(part), totalPages);
    }
  }

  /** The range branch of one pass: nothing when an end is NaN, the clamped range otherwise. */
  method AddRangeSegment(pages: set<int>, start: Option<int>, end: Option<int>, totalPages: nat) returns (added: set<int>)
    ensures added == pages + RangePages(start, end, totalPages)
  {
    if start.Some? && end.Some? {
      added := AddRange(pages, Max(1, start.value), Min(totalPages, end.value));
    } else {
      added := pages;
    }
  }

  /** The single-page branch of one pass. */
  method AddSinglePage(pages: set<int>, pageNum: Option<int>, totalPages: nat) returns (added: set<int>)
    ensures added == pages + SinglePage(pageNum, totalPages)
  {
    added := pages;
    if pageNum.Some? && pageNum.value >= 1 && pageNum.value <= totalPages {
      added := added + {pageNum.value - 1};
    }
  }

  /** The counting loop of a range segment: pages first..last added one by one. */
  method AddRange(pages: set<int>, first: int, last: int) returns (added: set<int>)
    ensures added == pages + Pages(first, last)
  {
    added := pages;
    var i := first;
    while i <= last
      invariant first <= i <= Max(first, last + 1)
      invariant added == pages + Pages(first, i - 1)
    {
      added := added + {i - 1};
      i := i + 1;
    }
  }

  /** A page index is selected exactly when some segment of the text selects it. */
  lemma PageSetMembership(rangeStr: string, totalPages: nat, k: int)
    ensures k in PageSet(rangeStr, totalPages)
        <==> exists i :: 0 <= i < |Segments(rangeStr)| && k in SegmentPages(Segments(rangeStr)[i], totalPages)
  {
    var parts := Segments(rangeStr);
    var sets := Contributions(parts, totalPages);
    UnionAllMembership(sets, k);
    assert PageSet(rangeStr, totalPages) == UnionAll(sets);
    if k in UnionAll(sets) {
      var i :| 0 <= i < |sets| && k in sets[i];
      assert k in SegmentPages(parts[i], totalPages);
    }
    if exists i :: 0 <= i < |parts| && k in SegmentPages(parts[i], totalPages) {
      var i :| 0 <= i < |parts| && k in SegmentPages(parts[i], totalPages);
      assert k in sets[i];
    }
  }

  /**
   * Only which segments occur matters: two texts whose segments are the same
   * strings, in any order and with any repetitions, select the same pages.
   */
  lemma SegmentOrderIrrelevant(a: string, b: string, totalPages: nat)
    requires forall p :: p in Segments(a) <==> p in Segments(b)
    ensures PageSet(a, totalPages) == PageSet(b, totalPages)
  {
    var sa := Contributions(Segments(a), totalPages);
    var sb := Contributions(Segments(b), totalPages);
    forall k | k in UnionAll(sa)
      ensures k in UnionAll(sb)
    {
      SameSegmentsSubset(Segments(a), Segments(b), totalPages, k);
    }
    forall k | k in UnionAll(sb)
      ensures k in UnionAll(sa)
    {
      SameSegmentsSubset(Segments(b), Segments(a), totalPages, k);
    }
  }

  lemma SameSegmentsSubset(a: seq<string>, b: seq<string>, totalPages: nat, k: int)
    requires forall p :: p in a ==> p in b
    requires k in UnionAll(Contributions(a, totalPages))
    ensures k in UnionAll(Contributions(b, totalPages))
  {
    var sa := Contributions(a, totalPages);
    var sb := Contributions(b, totalPages);
    UnionAllMembership(sa, k);
    UnionAllMembership(sb, k);
    var i :| 0 <= i < |sa| && k in sa[i];
    assert a[i] in b;
    var j :| 0 <= j < |b| && b[j] == a[i];
    assert sb[j] == sa[i];
  }

  /** The union over two lists of sets, one after the other. */
  lemma {:induction false} UnionAllAppend(p: seq<set<int>>, q: seq<set<int>>)
    ensures UnionAll(p + q) == UnionAll(p) + UnionAll(q)
    decreases |q|
  {
    if q == [] {
      assert p + q == p;
    } else {
      var front := q[..|q| - 1];
      UnionAllAppend(p, front);
      assert (p + q)[..|p + q| - 1] == p + front;
    }
  }

  /** Text joined at a comma has the segments of both sides. */
  lemma SegmentsAppend(a: string, b: string)
    ensures Segments(a + "," + b) == Segments(a) + Segments(b)
  {
    SplitAppend(a, ',', b);
  }

  /** Ranges joined with a comma select the union of what each selects. */
  lemma PageSetConcat(a: string, b: string, totalPages: nat)
    ensures PageSet(a + "," + b, totalPages) == PageSet(a, totalPages) + PageSet(b, totalPages)
  {
    SegmentsAppend(a, b);
    ContributionsAppend(Segments(a), Segments(b), totalPages);
    UnionAllAppend(Contributions(Segments(a), totalPages), Contributions(Segments(b), totalPages));
    assert PageSet(a + "," + b, totalPages) == UnionAll(Contributions(Segments(a) + Segments(b), totalPages));
  }

  lemma ContributionsAppend(p: seq<string>, q: seq<string>, totalPages: nat)
    ensures Contributions(p + q, totalPages) == Contributions(p, totalPages) + Contributions(q, totalPages)
  {
    var whole, cp, cq := Contributions(p + q, totalPages), Contributions(p, totalPages), Contributions(q, totalPages);
    assert |whole| == |cp + cq|;
    forall i | 0 <= i < |whole|
      ensures whole[i] == (cp + cq)[i]
    {
      assert whole[i] == SegmentPages((p + q)[i], totalPages);
      if i < |p| {
        assert (p + q)[i] == p[i] && (cp + cq)[i] == cp[i];
      } else {
        assert (p + q)[i] == q[i - |p|] && (cp + cq)[i] == cq[i - |p|];
      }
    }
  }

  /** Text without a comma is one segment: its trimmed self. */
  lemma PageSetOfSegment(s: string, totalPages: nat)
    requires ',' !in s
    ensures PageSet(s, totalPages) == SegmentPages(Trim(s), totalPages)
  {
    SplitWithoutSeparator(s, ',');
    var parts := Segments(s);
    assert |parts| == 1 && parts[0] == Trim(s);
    var sets := Contributions(parts, totalPages);
    assert |sets| == 1 && sets[0] == SegmentPages(Trim(s), totalPages);
    assert sets[..0] == [];
    assert PageSet(s, totalPages) == UnionAll(sets);
  }

  /** The empty text selects nothing. */
  lemma PageSetEmpty(totalPages: nat)
    ensures PageSet("", totalPages) == {}
  {
    PageSetOfSegment("", totalPages);
    assert Trim("") == "";
    assert SegmentPages("", totalPages) == SinglePage(ParseInt(""), totalPages);
  }

  lemma DigitNotSpace(c: char)
    requires IsDigitIn(c, 10)
    ensures !IsSpace(c) && c != '-' && c != ','
  {
    assert '0' <= c <= '9';
  }

  /** A decimal rendering has no white space, hyphen or comma, and trim leaves it alone. */
  lemma NumeralText(n: nat)
    ensures Trimmed(NatToString(n)) && Trim(NatToString(n)) == NatToString(n)
    ensures '-' !in NatToString(n) && ',' !in NatToString(n)
  {
    var d := NatToString(n);
    DigitNotSpace(d[0]);
    DigitNotSpace(d[|d| - 1]);
    forall i | 0 <= i < |d|
      ensures d[i] != '-' && d[i] != ','
    {
      DigitNotSpace(d[i]);
    }
    assert [] + d + [] == d;
    TrimPadded([], d, []);
  }

  /**
   * A segment holding one number n (written as `${n}`) selects index n - 1
   * exactly when 1 <= n <= totalPages, and nothing otherwise: no error for 0,
   * for a page past the end, or for a negative number, whose '-' makes it a
   * range with an empty, NaN start.
   */
  lemma SinglePageSegment(n: int, totalPages: nat)
    ensures SegmentPages(IntToString(n), totalPages) == if 1 <= n <= totalPages then {n - 1} else {}
  {
    if n >= 0 {
      NumeralText(n);
      ParseIntOfIntToString(n);
    } else {
      NegativeNumberSegment(n, totalPages);
    }
  }

  /** `-5` is read as a range whose start is empty and so NaN: it selects nothing. */
  lemma NegativeNumberSegment(n: int, totalPages: nat)
    requires n < 0
    ensures SegmentPages(IntToString(n), totalPages) == {}
  {
    var d := NatToString(-n);
    NumeralText(-n);
    RangePieces([], d, []);
    assert [] + "-" + (d + []) == IntToString(n);
    SegmentOfPieces(IntToString(n), [], d, totalPages);
    assert Trim([]) == [];
    assert ParseInt([]) == None;
  }

  /** The first two pieces of a segment `x-y...` whose x and y hold no hyphen and whose tail is empty or starts with one. */
  lemma RangePieces(x: string, y: string, rest: string)
    requires '-' !in x && '-' !in y
    requires rest == [] || rest[0] == '-'
    ensures var part := x + "-" + (y + rest);
      && '-' in part && |Split(part, '-')| >= 2
      && Split(part, '-')[0] == x && Split(part, '-')[1] == y
  {
    var part := x + "-" + (y + rest);
    assert part[|x|] == '-';
    SplitAppend(x, '-', y + rest);
    SplitWithoutSeparator(x, '-');
    SplitWithoutSeparator(y, '-');
    if rest == [] {
      assert y + rest == y;
    } else {
      assert y + rest == y + "-" + rest[1..];
      SplitAppend(y, '-', rest[1..]);
    }
  }

  /** A segment with a hyphen, by the first two pieces it splits into. */
  lemma SegmentOfPieces(part: string, x: string, y: string, totalPages: nat)
    requires '-' in part && |Split(part, '-')| >= 2
    requires Split(part, '-')[0] == x && Split(part, '-')[1] == y
    ensures SegmentPages(part, totalPages) == RangePages(ParseInt(Trim(x)), ParseInt(Trim(y)), totalPages)
  {
  }

  /**
   * A segment `a-b` of two numerals selects exactly the indices of the pages
   * from a to b that exist: an inverted range selects nothing, and a range
   * past the end is cut at the last page. Anything after a second hyphen is
   * ignored (`1-3-9` is `1-3`).
   */
  lemma RangeSegment(a: nat, b: nat, rest: string, totalPages: nat)
    requires rest == [] || rest[0] == '-'
    ensures forall k :: k in SegmentPages(NatToString(a) + "-" + (NatToString(b) + rest), totalPages)
                    <==> 0 <= k < totalPages && a <= k + 1 <= b
  {
    var da, db := NatToString(a), NatToString(b);
    NumeralText(a);
    NumeralText(b);
    RangePieces(da, db, rest);
    SegmentOfPieces(da + "-" + (db + rest), da, db, totalPages);
    ParseIntOfIntToString(a);
    ParseIntOfIntToString(b);
  }

  /** Text that is one number n, with no padding, selects index n - 1 when page n exists, nothing otherwise. */
  lemma PageSetOfNumber(n: int, totalPages: nat)
    ensures PageSet(IntToString(n), totalPages) == if 1 <= n <= totalPages then {n - 1} else {}
  {
    var text := IntToString(n);
    var d := NatToString(if n < 0 then -n else n);
    NumeralText(if n < 0 then -n else n);
    if n < 0 {
      assert text == "-" + d;
      assert Trimmed(d);
      assert text[0] == '-' && text[|text| - 1] == d[|d| - 1];
      assert !IsSpace('-');
      assert [] + text + [] == text;
      TrimPadded([], text, []);
      assert ',' !in text by {
        assert forall i :: 1 <= i < |text| ==> text[i] == d[i - 1];
      }
    }
    PageSetOfSegment(text, totalPages);
    SinglePageSegment(n, totalPages);
  }

  /** Text that is one range of numerals `a-b` (possibly followed by further hyphenated pieces) selects the pages from a to b that exist. */
  lemma PageSetOfRange(a: nat, b: nat, rest: string, totalPages: nat)
    requires rest == [] || (rest[0] == '-' && ',' !in rest && !IsSpace(rest[|rest| - 1]))
    ensures forall k :: k in PageSet(NatToString(a) + "-" + (NatToString(b) + rest), totalPages)
                    <==> 0 <= k < totalPages && a <= k + 1 <= b
  {
    var text := NatToString(a) + "-" + (NatToString(b) + rest);
    RangeText(a, b, rest);
    PageSetOfSegment(text, totalPages);
    RangeSegment(a, b, rest, totalPages);
  }

  lemma RangeText(a: nat, b: nat, rest: string)
    requires rest == [] || (rest[0] == '-' && ',' !in rest && !IsSpace(rest[|rest| - 1]))
    ensures var text := NatToString(a) + "-" + (NatToString(b) + rest);
      ',' !in text && Trim(text) == text
  {
    var da, db := NatToString(a), NatToString(b);
    var text := da + "-" + (db + rest);
    NumeralText(a);
    NumeralText(b);
    RangeTextTrimmed(da, db, rest);
    assert ',' !in db + rest;
    assert ',' !in da + "-";
    assert [] + text + [] == text;
    TrimPadded([], text, []);
  }

  lemma RangeTextTrimmed(da: string, db: string, rest: string)
    requires Trimmed(da) && Trimmed(db) && da != [] && db != []
    requires rest == [] || !IsSpace(rest[|rest| - 1])
    ensures Trimmed(da + "-" + (db + rest))
  {
    var tail := db + rest;
    assert (da + "-")[0] == da[0];
    if rest == [] {
      assert tail[|tail| - 1] == db[|db| - 1];
    } else {
      assert tail[|tail| - 1] == rest[|rest| - 1];
    }
    TrimmedJoin(da + "-", tail);
  }

  lemma TrimmedJoin(x: string, y: string)
    requires |x| > 0 && |y| > 0 && !IsSpace(x[0]) && !IsSpace(y[|y| - 1])
    ensures Trimmed(x + y)
  {
    assert (x + y)[0] == x[0] && (x + y)[|x + y| - 1] == y[|y| - 1];
  }

  /** A strictly increasing listing of exactly the set's elements is the sorted result. */
  lemma SortedListing(s: set<int>, totalPages: nat, r: seq<int>)
    requires forall k :: k in s ==> 0 <= k < totalPages
    requires StrictlyIncreasing(r)
    requires forall k :: k in r <==> k in s
    ensures AscendingElements(s, totalPages) == r
  {
    AscendingUnique(AscendingElements(s, totalPages), r);
  }
}
