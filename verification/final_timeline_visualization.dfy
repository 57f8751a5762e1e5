/** The cross-reference timeline script: CSV rows are turned into page
    references (skipping rows whose pages do not parse or lie within three
    pages of each other), the references are split into forward and backward
    ones, the page range of the plot is computed, and each reference is drawn
    as a parabolic arc whose height grows with its length. The CSV file is
    not read here: the rows are a parameter, each a map from column name to
    cell text, as `csv.DictReader` yields them. */
module FinalTimelineVisualization {
  import opened Common

  type Row = map<string, string>

  datatype Reference = Reference(fromPage: int, toPage: int, fromSection: string, toSection: string)

  function Abs(x: int): nat { if x < 0 then -x else x }

  // ---------------------------------------------------------------------
  // Python's str.strip() and int()

  /** The ASCII characters Python counts as whitespace: tab, line feed,
      vertical tab, form feed, carriage return, the four separators 0x1C-0x1F
      and space. */
  predicate IsSpace(c: char) {
    (9 <= c as int <= 13) || (28 <= c as int <= 31) || c == ' '
  }

  /** Drop leading whitespace. */
  function StripLeft(s: string): (t: string)
    ensures |t| <= |s| && t == s[|s| - |t|..]
    ensures forall k :: 0 <= k < |s| - |t| ==> IsSpace(s[k])
    ensures t != [] ==> !IsSpace(t[0])
  {
    if s != [] && IsSpace(s[0]) then StripLeft(s[1..]) else s
  }

  /** Drop trailing whitespace. */
  function StripRight(s: string): (t: string)
    ensures |t| <= |s| && t == s[..|t|]
    ensures forall k :: |t| <= k < |s| ==> IsSpace(s[k])
    ensures t != [] ==> !IsSpace(t[|t| - 1])
  {
    if s != [] && IsSpace(s[|s| - 1]) then StripRight(s[..|s| - 1]) else s
  }

  /** `s.strip()`: the part of `s` between its leading and trailing
      whitespace; it neither starts nor ends with whitespace. */
  function Strip(s: string): (t: string)
    ensures |t| <= |s|
    ensures t != [] ==> !IsSpace(t[0]) && !IsSpace(t[|t| - 1])
  {
    StripRight(StripLeft(s))
  }

  /** The strip is the slice of `s` left once a whitespace prefix and a
      whitespace suffix are cut off, and a string that neither starts nor
      ends with whitespace is its own strip. */
  lemma StripSpec(s: string)
    ensures exists a, b ::
      && 0 <= a <= b <= |s| && Strip(s) == s[a..b]
      && (forall k :: 0 <= k < a ==> IsSpace(s[k]))
      && (forall k :: b <= k < |s| ==> IsSpace(s[k]))
    ensures s != [] && !IsSpace(s[0]) && !IsSpace(s[|s| - 1]) ==> Strip(s) == s
  {
    var l := StripLeft(s);
    var t := StripRight(l);
    var a := |s| - |l|;
    StripSlice(s, l, t);
    assert 0 <= a <= a + |t| <= |s| && t == s[a..a + |t|];
    if s != [] && !IsSpace(s[0]) && !IsSpace(s[|s| - 1]) {
      assert l == s;
      assert t == l;
    }
  }

  /** Dropping a whitespace prefix and then a whitespace suffix leaves a
      slice of `s` with only whitespace around it. */
  lemma StripSlice(s: string, l: string, t: string)
    requires |l| <= |s| && l == s[|s| - |l|..]
    requires forall k :: 0 <= k < |s| - |l| ==> IsSpace(s[k])
    requires |t| <= |l| && t == l[..|t|]
    requires forall k :: |t| <= k < |l| ==> IsSpace(l[k])
    ensures t == s[|s| - |l|..|s| - |l| + |t|]
    ensures forall k :: |s| - |l| + |t| <= k < |s| ==> IsSpace(s[k])
  {
    var a := |s| - |l|;
    forall k | a + |t| <= k < |s| ensures IsSpace(s[k]) {
      assert s[k] == l[k - a];
    }
  }

  /** A string that neither starts nor ends with whitespace is its own
      strip, so stripping twice is stripping once. */
  lemma StripIdempotent(s: string)
    ensures Strip(Strip(s)) == Strip(s)
  {
    var t := Strip(s);
    if t != [] {
      assert StripLeft(t) == t;
      assert StripRight(t) == t;
    }
  }

  predicate IsDigit(c: char) { '0' <= c <= '9' }

  predicate AllDigits(s: string) {
    forall k :: 0 <= k < |s| ==> IsDigit(s[k])
  }

  /** The value of a string of decimal digits, most significant first. */
  function DigitsValue(ds: string): (n: nat)
    requires AllDigits(ds)
  {
    if ds == [] then 0
    else DigitsValue(ds[..|ds| - 1]) * 10 + (ds[|ds| - 1] as int - '0' as int)
  }

  /** `int(s)` in base 10: surrounding whitespace is ignored, then an
      optional sign and at least one digit; anything else is a ValueError,
      here `None`. */
  function ParseInt(s: string): (r: Option<int>)
    ensures Strip(s) == [] ==> r == None
    ensures s != [] && AllDigits(s) ==> r == Some(DigitsValue(s))
  {
    StripSpec(s);
    ParseStripped(Strip(s))
  }

  /** An optional sign and at least one digit, nothing else. */
  function ParseStripped(t: string): (r: Option<int>)
    ensures r.Some? ==> t != [] && IsDigit(t[|t| - 1])
    ensures r.Some? ==> (r.value < 0 ==> t[0] == '-')
    ensures r.Some? && !IsDigit(t[0]) ==> t[0] == '-' || t[0] == '+'
    ensures t != [] && AllDigits(t) ==> r == Some(DigitsValue(t))
  {
    if t == [] then None
    else
      var body := if t[0] == '-' || t[0] == '+' then t[1..] else t;
      if body != [] && AllDigits(body) then
        Some(if t[0] == '-' then -(DigitsValue(body) as int) else DigitsValue(body))
      else None
  }

  /** `int` ignores the whitespace around a number. */
  lemma ParseIgnoresSpaces(s: string)
    ensures ParseInt(Strip(s)) == ParseInt(s)
  {
    StripIdempotent(s);
  }

  /** A blank cell never parses. */
  lemma ParseRejectsBlank(s: string)
    requires Strip(s) == []
    ensures ParseInt(s) == None
  {
  }

  function DigitChar(d: nat): (c: char)
    requires d < 10
    ensures IsDigit(c) && c as int - '0' as int == d
  {
    ('0' as int + d) as char
  }

  /** The decimal digits of a natural number, without leading zeros. */
  function FormatNat(n: nat): (s: string)
    ensures s != [] && AllDigits(s)
    decreases n
  {
    if n < 10 then [DigitChar(n)] else FormatNat(n / 10) + [DigitChar(n % 10)]
  }

  /** `str(n)` for an integer. */
  function FormatInt(n: int): (s: string)
    ensures s != []
  {
    if n < 0 then "-" + FormatNat(-n) else FormatNat(n)
  }

  lemma {:induction false} DigitsOfFormat(n: nat)
    ensures DigitsValue(FormatNat(n)) == n
    decreases n
  {
    if n >= 10 {
      var s := FormatNat(n);
      DigitsOfFormat(n / 10);
      assert s[..|s| - 1] == FormatNat(n / 10);
    }
  }

  /** A formatted integer has no surrounding whitespace. */
  lemma FormatIsStripped(n: int)
    ensures Strip(FormatInt(n)) == FormatInt(n)
  {
    var s := FormatInt(n);
    var digits := FormatNat(if n < 0 then -n else n);
    assert !IsSpace(s[0]) && !IsSpace(s[|s| - 1]) by {
      assert IsDigit(digits[0]) && IsDigit(digits[|digits| - 1]);
      if n < 0 {
        assert s[|s| - 1] == digits[|digits| - 1];
      }
    }
    assert StripLeft(s) == s;
    assert StripRight(s) == s;
  }

  /** Reading back a formatted integer gives the integer. */
  lemma ParseFormatRoundTrip(n: int)
    ensures ParseInt(FormatInt(n)) == Some(n)
  {
    var s := FormatInt(n);
    var digits := FormatNat(if n < 0 then -n else n);
    DigitsOfFormat(if n < 0 then -n else n);
    FormatIsStripped(n);
    if n < 0 {
      assert s[1..] == digits;
    } else {
      assert IsDigit(s[0]);
    }
  }

  // ---------------------------------------------------------------------
  // load_cross_references

  /** What one row contributes: a reference when both pages parse (the To
      Page after stripping must be non-empty) and lie more than three pages
      apart; a missing column (KeyError), a page that does not parse
      (ValueError), a blank To Page or a short span contributes nothing. */
  function RowReference(row: Row): (r: Option<Reference>)
    ensures r.Some? ==> Abs(r.value.fromPage - r.value.toPage) > 3
  {
    if "From Page" !in row then None
    else match ParseInt(row["From Page"])
      case None => None
      case Some(fromPage) =>
        if "To Page" !in row then None
        else
          var toStr := Strip(row["To Page"]);
          if toStr == [] then None
          else match ParseInt(toStr)
            case None => None
            case Some(toPage) =>
              if Abs(fromPage - toPage) <= 3 then None
              else if "From Section" !in row || "To Section" !in row then None
              else Some(Reference(fromPage, toPage, row["From Section"], row["To Section"]))
  }

  /** A kept row has its four columns and two parsing pages, and its
      reference carries the parsed pages and the two section cells unchanged. */
  lemma RowKeptOnlyIf(row: Row)
    requires RowReference(row).Some?
    ensures "From Page" in row && "To Page" in row && "From Section" in row && "To Section" in row
    ensures ParseInt(row["From Page"]).Some? && ParseInt(row["To Page"]).Some?
    ensures RowReference(row).value == Reference(ParseInt(row["From Page"]).value, ParseInt(row["To Page"]).value,
                                                 row["From Section"], row["To Section"])
  {
    ParseIgnoresSpaces(row["To Page"]);
  }

  /** A row with its four columns, two parsing pages and a span of more than
      three pages is kept: the blank-To-Page check never rejects it. */
  lemma RowKeptIf(row: Row)
    requires "From Page" in row && "To Page" in row && "From Section" in row && "To Section" in row
    requires ParseInt(row["From Page"]).Some? && ParseInt(row["To Page"]).Some?
    requires Abs(ParseInt(row["From Page"]).value - ParseInt(row["To Page"]).value) > 3
    ensures RowReference(row).Some?
  {
    var cell := row["To Page"];
    ParseIgnoresSpaces(cell);
    assert Strip(cell) != [] && ParseInt(Strip(cell)) == ParseInt(cell);
  }

  /** A row is kept exactly when its four columns are present, both pages
      parse and they lie more than three pages apart. */
  lemma RowReferenceSpec(row: Row)
    ensures RowReference(row).Some? <==>
      && "From Page" in row && "To Page" in row && "From Section" in row && "To Section" in row
      && ParseInt(row["From Page"]).Some? && ParseInt(row["To Page"]).Some?
      && Abs(ParseInt(row["From Page"]).value - ParseInt(row["To Page"]).value) > 3
  {
    if RowReference(row).Some? {
      RowKeptOnlyIf(row);
    } else if && "From Page" in row && "To Page" in row && "From Section" in row && "To Section" in row
              && ParseInt(row["From Page"]).Some? && ParseInt(row["To Page"]).Some?
              && Abs(ParseInt(row["From Page"]).value - ParseInt(row["To Page"]).value) > 3 {
      RowKeptIf(row);
    }
  }

  /** The values present in a list of optional values, in order. */
  function Present<T>(xs: seq<Option<T>>): (ys: seq<T>)
    ensures |ys| <= |xs|
  {
    if xs == [] then []
    else
      var prev := Present(xs[..|xs| - 1]);
      match xs[|xs| - 1]
      case None => prev
      case Some(y) => prev + [y]
  }

  lemma {:induction false} PresentAppend<T>(a: seq<Option<T>>, b: seq<Option<T>>)
    ensures Present(a + b) == Present(a) + Present(b)
    decreases |b|
  {
    if b == [] {
      assert a + b == a;
    } else {
      var b' := b[..|b| - 1];
      PresentAppend(a, b');
      assert (a + b)[..|a + b| - 1] == a + b';
    }
  }

  lemma {:induction false} PresentMembers<T>(xs: seq<Option<T>>, y: T)
    ensures y in Present(xs) <==> Some(y) in xs
    decreases |xs|
  {
    if xs != [] {
      var init := xs[..|xs| - 1];
      PresentMembers(init, y);
      assert xs == init + [xs[|xs| - 1]];
    }
  }

  /** `f` applied to every element, in order. */
  function MapSeq<A, B>(f: A -> B, xs: seq<A>): (ys: seq<B>)
    ensures |ys| == |xs|
    ensures forall i :: 0 <= i < |xs| ==> ys[i] == f(xs[i])
  {
    seq(|xs|, i requires 0 <= i < |xs| => f(xs[i]))
  }

  lemma MapSeqAppend<A, B>(f: A -> B, a: seq<A>, b: seq<A>)
    ensures MapSeq(f, a + b) == MapSeq(f, a) + MapSeq(f, b)
  {
    assert forall i :: 0 <= i < |a| ==> (a + b)[i] == a[i];
    assert forall i :: 0 <= i < |b| ==> (a + b)[|a| + i] == b[i];
  }

  /** What each row contributes, row by row. */
  function RowResults(rows: seq<Row>): (results: seq<Option<Reference>>)
    ensures |results| == |rows|
  {
    MapSeq(RowReference, rows)
  }

  /** The references kept from `rows`, in row order. */
  function Kept(rows: seq<Row>): (refs: seq<Reference>)
    ensures |refs| <= |rows|
  {
    Present(RowResults(rows))
  }

  /** Keeping distributes over concatenation: the rows are filtered one by
      one and their order is kept. */
  lemma KeptAppend(a: seq<Row>, b: seq<Row>)
    ensures Kept(a + b) == Kept(a) + Kept(b)
  {
    MapSeqAppend(RowReference, a, b);
    PresentAppend(RowResults(a), RowResults(b));
  }

  /** A reference is kept exactly when some row yields it. */
  lemma KeptMembers(rows: seq<Row>, r: Reference)
    ensures r in Kept(rows) <==> exists i :: 0 <= i < |rows| && RowReference(rows[i]) == Some(r)
  {
    PresentMembers(RowResults(rows), r);
    if Some(r) in RowResults(rows) {
      var i :| 0 <= i < |rows| && RowResults(rows)[i] == Some(r);
      assert RowReference(rows[i]) == Some(r);
    }
    if exists i :: 0 <= i < |rows| && RowReference(rows[i]) == Some(r) {
      var i :| 0 <= i < |rows| && RowReference(rows[i]) == Some(r);
      assert RowResults(rows)[i] == Some(r);
    }
  }

  /** Every kept reference spans more than three pages. */
  lemma KeptSignificant(rows: seq<Row>)
    ensures forall k :: 0 <= k < |Kept(rows)| ==> Abs(Kept(rows)[k].fromPage - Kept(rows)[k].toPage) > 3
  {
    forall k | 0 <= k < |Kept(rows)| ensures Abs(Kept(rows)[k].fromPage - Kept(rows)[k].toPage) > 3 {
      KeptMembers(rows, Kept(rows)[k]);
    }
  }

  /** Scanning one more row appends what that row contributes. */
  lemma PresentSnoc<T>(xs: seq<Option<T>>, x: Option<T>)
    ensures Present(xs + [x]) == Present(xs) + (match x case Some(y) => [y] case None => [])
  {
    assert (xs + [x])[..|xs|] == xs;
  }

  lemma KeptStep(rows: seq<Row>, i: nat)
    requires i < |rows|
    ensures Kept(rows[..i + 1]) == Kept(rows[..i]) + (match RowReference(rows[i]) case Some(r) => [r] case None => [])
  {
    assert rows[..i + 1] == rows[..i] + [rows[i]];
    MapSeqAppend(RowReference, rows[..i], [rows[i]]);
    assert MapSeq(RowReference, [rows[i]]) == [RowReference(rows[i])];
    PresentSnoc(MapSeq(RowReference, rows[..i]), RowReference(rows[i]));
  }

  /** `load_cross_references`: one pass over the rows, appending the
      reference of every row that passes the checks; a row that raises
      KeyError or ValueError is skipped and the loop goes on. */
  method LoadCrossReferences(rows: seq<Row>) returns (references: seq<Reference>)
    ensures references == Kept(rows)
  {
    references := [];
    for i := 0 to |rows|
      invariant references == Kept(rows[..i])
    {
      var row := rows[i];
      KeptStep(rows, i);
      match RowReference(row) {
        case Some(r) => references := references + [r];
        case None =>
      }
    }
    assert rows[..|rows|] == rows;
  }

  // ---------------------------------------------------------------------
  // The forward / backward split

  /** `[ref for ref in references if ref['to_page'] > ref['from_page']]`. */
  function Forward(refs: seq<Reference>): (fw: seq<Reference>)
    ensures |fw| <= |refs|
    ensures forall k :: 0 <= k < |fw| ==> fw[k].toPage > fw[k].fromPage
  {
    if refs == [] then []
    else
      var prev := Forward(refs[..|refs| - 1]);
      var r := refs[|refs| - 1];
      if r.toPage > r.fromPage then prev + [r] else prev
  }

  /** `[ref for ref in references if ref['to_page'] < ref['from_page']]`. */
  function Backward(refs: seq<Reference>): (bw: seq<Reference>)
    ensures |bw| <= |refs|
    ensures forall k :: 0 <= k < |bw| ==> bw[k].toPage < bw[k].fromPage
  {
    if refs == [] then []
    else
      var prev := Backward(refs[..|refs| - 1]);
      var r := refs[|refs| - 1];
      if r.toPage < r.fromPage then prev + [r] else prev
  }

  /** A reference is forward exactly when it is listed and points to a
      later page; backward exactly when it is listed and points to an
      earlier page. */
  lemma {:induction false} SplitMembers(refs: seq<Reference>, r: Reference)
    ensures r in Forward(refs) <==> r in refs && r.toPage > r.fromPage
    ensures r in Backward(refs) <==> r in refs && r.toPage < r.fromPage
    decreases |refs|
  {
    if refs != [] {
      var init := refs[..|refs| - 1];
      SplitMembers(init, r);
      assert refs == init + [refs[|refs| - 1]];
    }
  }

  /** Both lists keep the order of the references: splitting a
      concatenation splits each part. */
  lemma SplitAppend(a: seq<Reference>, b: seq<Reference>)
    ensures Forward(a + b) == Forward(a) + Forward(b)
    ensures Backward(a + b) == Backward(a) + Backward(b)
  {
    ForwardAppend(a, b);
    BackwardAppend(a, b);
  }

  lemma {:induction false} ForwardAppend(a: seq<Reference>, b: seq<Reference>)
    ensures Forward(a + b) == Forward(a) + Forward(b)
    decreases |b|
  {
    if b == [] {
      assert a + b == a;
    } else {
      var b', r := b[..|b| - 1], b[|b| - 1];
      ForwardAppend(a, b');
      assert (a + b)[..|a + b| - 1] == a + b' && (a + b)[|a + b| - 1] == r;
      if r.toPage > r.fromPage {
        assert Forward(a) + (Forward(b') + [r]) == (Forward(a) + Forward(b')) + [r];
      }
    }
  }

  lemma {:induction false} BackwardAppend(a: seq<Reference>, b: seq<Reference>)
    ensures Backward(a + b) == Backward(a) + Backward(b)
    decreases |b|
  {
    if b == [] {
      assert a + b == a;
    } else {
      var b', r := b[..|b| - 1], b[|b| - 1];
      BackwardAppend(a, b');
      assert (a + b)[..|a + b| - 1] == a + b' && (a + b)[|a + b| - 1] == r;
      if r.toPage < r.fromPage {
        assert Backward(a) + (Backward(b') + [r]) == (Backward(a) + Backward(b')) + [r];
      }
    }
  }

  /** When no reference points to its own page, the forward and backward
      lists together hold every reference exactly once. */
  lemma {:induction false} SplitPartition(refs: seq<Reference>)
    requires forall k :: 0 <= k < |refs| ==> refs[k].fromPage != refs[k].toPage
    ensures multiset(Forward(refs)) + multiset(Backward(refs)) == multiset(refs)
    ensures |Forward(refs)| + |Backward(refs)| == |refs|
    decreases |refs|
  {
    if refs != [] {
      var init := refs[..|refs| - 1];
      SplitPartition(init);
      assert refs == init + [refs[|refs| - 1]];
    }
  }

  /** The loaded references split into forward and backward ones with none
      lost and none counted twice, because every kept span exceeds three
      pages. */
  lemma LoadedSplitPartition(rows: seq<Row>)
    ensures multiset(Forward(Kept(rows))) + multiset(Backward(Kept(rows))) == multiset(Kept(rows))
    ensures |Forward(Kept(rows))| + |Backward(Kept(rows))| == |Kept(rows)|
  {
    KeptSignificant(rows);
    SplitPartition(Kept(rows));
  }

  // ---------------------------------------------------------------------
  // extract_main_chapters

  datatype Chapter = Chapter(page: int, title: string)

  /** `extract_main_chapters`: the chapter start pages and titles, in the
      order of the dict display. */
  const MainChapters: seq<Chapter> := [
    Chapter(26, "1. Introduction"), Chapter(29, "2. Fundamentals of Probability"),
    Chapter(44, "3. Fundamentals of Machine Learning"), Chapter(56, "4. Fundamentals of Networks"),
    Chapter(70, "5. Univariate Probabilities"), Chapter(102, "6. Multivariate Probabilities"),
    Chapter(122, "7. Entropies"), Chapter(136, "8. Dependence"), Chapter(164, "9. Stochastic Processes"),
    Chapter(190, "10. Causation"), Chapter(206, "11. Networks as Representations"),
    Chapter(224, "12. Probabilistic Modeling"), Chapter(244, "13. Nonparametric Estimation"),
    Chapter(264, "14. Parametric Estimation"), Chapter(290, "15. Estimation of Multivariate"),
    Chapter(324, "16. Time Series"), Chapter(352, "17. Construction of Networks"),
    Chapter(370, "18. Assessing Goodness"), Chapter(414, "19. Conclusions")
  ]

  /** `chapters.keys()`, in order. */
  function ChapterPages(chapters: seq<Chapter>): (pages: seq<int>)
    ensures |pages| == |chapters|
    ensures forall i :: 0 <= i < |chapters| ==> pages[i] == chapters[i].page
  {
    seq(|chapters|, i requires 0 <= i < |chapters| => chapters[i].page)
  }

  /** The 19 chapters are listed with strictly increasing pages, from 26 to
      414, so no two share a key. */
  lemma MainChaptersOrdered()
    ensures |MainChapters| == 19
    ensures forall i :: 0 <= i < |MainChapters| - 1 ==> MainChapters[i].page < MainChapters[i + 1].page
    ensures MainChapters[0].page == 26 && MainChapters[18].page == 414
  {
  }

  /** Strictly increasing pages are distinct, and the first and last are
      the smallest and the largest. */
  lemma {:induction false} IncreasingPages(pages: seq<int>)
    requires |pages| > 0
    requires forall i :: 0 <= i < |pages| - 1 ==> pages[i] < pages[i + 1]
    ensures Distinct(pages)
    ensures SeqMin(pages) == pages[0] && SeqMax(pages) == pages[|pages| - 1]
  {
    assert forall i, j :: 0 <= i < j < |pages| ==> pages[i] < pages[j] by {
      forall i, j | 0 <= i < j < |pages| ensures pages[i] < pages[j] {
        var k := i;
        while k < j
          invariant i <= k <= j
          invariant pages[i] <= pages[k]
          invariant i < k ==> pages[i] < pages[k]
        {
          k := k + 1;
        }
      }
    }
  }

  /** The chapter pages are distinct, from 26 to 414. */
  lemma MainChapterPages()
    ensures Distinct(ChapterPages(MainChapters))
    ensures SeqMin(ChapterPages(MainChapters)) == 26 && SeqMax(ChapterPages(MainChapters)) == 414
  {
    MainChaptersOrdered();
    IncreasingPages(ChapterPages(MainChapters));
  }

  // ---------------------------------------------------------------------
  // The page range

  function FromPages(refs: seq<Reference>): (pages: seq<int>)
    ensures |pages| == |refs|
    ensures forall i :: 0 <= i < |refs| ==> pages[i] == refs[i].fromPage
  {
    seq(|refs|, i requires 0 <= i < |refs| => refs[i].fromPage)
  }

  function ToPages(refs: seq<Reference>): (pages: seq<int>)
    ensures |pages| == |refs|
    ensures forall i :: 0 <= i < |refs| ==> pages[i] == refs[i].toPage
  {
    seq(|refs|, i requires 0 <= i < |refs| => refs[i].toPage)
  }

  /** `min_page` and `max_page` as written: the smallest of the chapter
      pages and the source pages, the largest of the chapter pages and the
      target pages. Python's `min` of an empty list raises, so there is no
      range without chapters or without references. */
  function PageRange(chapterPages: seq<int>, refs: seq<Reference>): (r: Option<(int, int)>)
    ensures r.Some? <==> chapterPages != [] && refs != []
    ensures r.Some? ==> r.value.0 <= r.value.1
    ensures r.Some? ==>
      && (forall i :: 0 <= i < |chapterPages| ==> r.value.0 <= chapterPages[i] <= r.value.1)
      && (forall i :: 0 <= i < |refs| ==> r.value.0 <= refs[i].fromPage && refs[i].toPage <= r.value.1)
    ensures r.Some? ==>
      && (r.value.0 in chapterPages || r.value.0 in FromPages(refs))
      && (r.value.1 in chapterPages || r.value.1 in ToPages(refs))
  {
    if chapterPages == [] || refs == [] then None
    else
      var lo := Min(SeqMin(chapterPages), SeqMin(FromPages(refs)));
      var hi := Max(SeqMax(chapterPages), SeqMax(ToPages(refs)));
      assert SeqMin(chapterPages) <= chapterPages[0] <= SeqMax(chapterPages);
      Some((lo, hi))
  }

  /** The range as written can leave a reference's far end outside the
      plotted interval [min_page - 20, max_page + 20]: a backward reference
      from page 40 to page 5, with a single chapter at page 26, gives the
      range (26, 26), and page 5 lies below 26 - 20. */
  lemma PageRangeMissesTarget()
    ensures var refs := [Reference(40, 5, "", "")];
      && PageRange([26], refs) == Some((26, 26))
      && refs[0].toPage < PageRange([26], refs).value.0 - 20
  {
    var refs := [Reference(40, 5, "", "")];
    assert FromPages(refs) == [40];
    assert ToPages(refs) == [5];
    assert SeqMin([26]) == 26 && SeqMax([26]) == 26;
    assert SeqMin([40]) == 40 && SeqMax([5]) == 5;
  }

  /** The range over every page a reference touches: the smallest and
      largest of the chapter pages and of both ends of every reference. */
  function FullPageRange(chapterPages: seq<int>, refs: seq<Reference>): (r: Option<(int, int)>)
    ensures r.Some? <==> chapterPages != [] && refs != []
    ensures r.Some? ==> r.value.0 <= r.value.1
    ensures r.Some? ==>
      && (forall i :: 0 <= i < |chapterPages| ==> r.value.0 <= chapterPages[i] <= r.value.1)
      && (forall i :: 0 <= i < |refs| ==>
            r.value.0 <= refs[i].fromPage <= r.value.1 && r.value.0 <= refs[i].toPage <= r.value.1)
  {
    if chapterPages == [] || refs == [] then None
    else
      var all := chapterPages + FromPages(refs) + ToPages(refs);
      assert forall i :: 0 <= i < |chapterPages| ==> all[i] == chapterPages[i];
      assert forall i :: 0 <= i < |refs| ==>
        all[|chapterPages| + i] == refs[i].fromPage && all[|chapterPages| + |refs| + i] == refs[i].toPage;
      Some((SeqMin(all), SeqMax(all)))
  }

  /** The full range contains the range as written, and the two agree on
      the lower end whenever no target lies below the chapter-and-source
      minimum, and on the upper end whenever no source lies above the
      chapter-and-target maximum. */
  lemma FullRangeContainsPageRange(chapterPages: seq<int>, refs: seq<Reference>)
    requires chapterPages != [] && refs != []
    ensures FullPageRange(chapterPages, refs).value.0 <= PageRange(chapterPages, refs).value.0
    ensures PageRange(chapterPages, refs).value.1 <= FullPageRange(chapterPages, refs).value.1
    ensures (forall i :: 0 <= i < |refs| ==> PageRange(chapterPages, refs).value.0 <= refs[i].toPage)
      ==> FullPageRange(chapterPages, refs).value.0 == PageRange(chapterPages, refs).value.0
    ensures (forall i :: 0 <= i < |refs| ==> refs[i].fromPage <= PageRange(chapterPages, refs).value.1)
      ==> FullPageRange(chapterPages, refs).value.1 == PageRange(chapterPages, refs).value.1
  {
    var full := FullPageRange(chapterPages, refs).value;
    var r := PageRange(chapterPages, refs).value;
    if r.0 in chapterPages {
      var i :| 0 <= i < |chapterPages| && chapterPages[i] == r.0;
    } else {
      var i :| 0 <= i < |refs| && FromPages(refs)[i] == r.0;
    }
    if r.1 in chapterPages {
      var i :| 0 <= i < |chapterPages| && chapterPages[i] == r.1;
    } else {
      var i :| 0 <= i < |refs| && ToPages(refs)[i] == r.1;
    }
    FullRangeAttained(chapterPages, refs);
  }

  /** Both ends of the full range are pages the plot actually holds: a
      chapter page or an end of some reference. */
  lemma FullRangeAttained(chapterPages: seq<int>, refs: seq<Reference>)
    requires chapterPages != [] && refs != []
    ensures var full := FullPageRange(chapterPages, refs).value;
      && (full.0 in chapterPages || exists i :: 0 <= i < |refs| && (refs[i].fromPage == full.0 || refs[i].toPage == full.0))
      && (full.1 in chapterPages || exists i :: 0 <= i < |refs| && (refs[i].fromPage == full.1 || refs[i].toPage == full.1))
  {
    var all := chapterPages + FromPages(refs) + ToPages(refs);
    var full := FullPageRange(chapterPages, refs).value;
    assert full == (SeqMin(all), SeqMax(all));
    AttainedInParts(chapterPages, refs, full.0);
    AttainedInParts(chapterPages, refs, full.1);
  }

  lemma AttainedInParts(chapterPages: seq<int>, refs: seq<Reference>, p: int)
    requires p in chapterPages + FromPages(refs) + ToPages(refs)
    ensures p in chapterPages || exists i :: 0 <= i < |refs| && (refs[i].fromPage == p || refs[i].toPage == p)
  {
    var all := chapterPages + FromPages(refs) + ToPages(refs);
    var j :| 0 <= j < |all| && all[j] == p;
    if j < |chapterPages| {
      assert all[j] == chapterPages[j];
    } else if j < |chapterPages| + |refs| {
      assert all[j] == FromPages(refs)[j - |chapterPages|];
    } else {
      assert all[j] == ToPages(refs)[j - |chapterPages| - |refs|];
    }
  }

  // ---------------------------------------------------------------------
  // The arcs

  /** `min(0.25 + distance / 500, 0.8)`: never below 0.25 nor above 0.8,
      and at the cap exactly from a distance of 275 pages on. */
  function CurveHeight(distance: nat): (h: real)
    ensures 0.25 <= h <= 0.8
    ensures h == 0.8 <==> distance >= 275
  {
    var raw := 0.25 + distance as real / 500.0;
    if raw <= 0.8 then raw else 0.8
  }

  /** A longer reference never gets a lower arc. */
  lemma CurveHeightMonotone(d1: nat, d2: nat)
    requires d1 <= d2
    ensures CurveHeight(d1) <= CurveHeight(d2)
  {
  }

  /** `4 * t * (1 - t)` scaled by `h`: the arc profile at parameter `t`,
      0 at both ends, `h` at the middle and between 0 and `h` in between. */
  function ArcOffset(h: real, t: real): (y: real)
    ensures t == 0.0 || t == 1.0 ==> y == 0.0
    ensures t == 0.5 ==> y == h
    ensures 0.0 <= h && 0.0 <= t <= 1.0 ==> 0.0 <= y <= h
  {
    ProfileBounds(h, t);
    h * 4.0 * t * (1.0 - t)
  }

  lemma MulNonneg(a: real, b: real)
    requires 0.0 <= a && 0.0 <= b
    ensures 0.0 <= a * b
  {
  }

  /** `4 t (1 - t)` is at most 1, because `1 - 4 t (1 - t)` is `(2 t - 1)^2`. */
  lemma ProfileBounds(h: real, t: real)
    ensures 0.0 <= h && 0.0 <= t <= 1.0 ==> 0.0 <= h * 4.0 * t * (1.0 - t) <= h
  {
    if 0.0 <= h && 0.0 <= t <= 1.0 {
      MulNonneg(t, 1.0 - t);
      var p := 4.0 * t * (1.0 - t);
      assert p <= 1.0 by {
        var e := 2.0 * t - 1.0;
        assert 1.0 - p == e * e;
        if e < 0.0 {
          MulNonneg(-e, -e);
        } else {
          MulNonneg(e, e);
        }
      }
      assert h * 4.0 * t * (1.0 - t) == h * p;
      MulNonneg(h, p);
      MulNonneg(h, 1.0 - p);
    }
  }

  /** `x` lies between the two pages of `ref`, in either direction. */
  predicate Spans(ref: Reference, x: real) {
    ref.fromPage as real <= x <= ref.toPage as real || ref.toPage as real <= x <= ref.fromPage as real
  }

  /** The arc parameter of abscissa `x`: 0 at the source page, 1 at the
      target page, and between 0 and 1 in between. */
  function ArcParam(ref: Reference, x: real): (t: real)
    requires ref.fromPage != ref.toPage
    ensures Spans(ref, x) ==> 0.0 <= t <= 1.0
    ensures x == ref.fromPage as real ==> t == 0.0
    ensures x == ref.toPage as real ==> t == 1.0
  {
    var d := (ref.toPage - ref.fromPage) as real;
    var t := (x - ref.fromPage as real) / d;
    assert t * d == x - ref.fromPage as real;
    t
  }

  /** The height of a forward arc above the timeline at abscissa `x`:
      between its two pages it stays above the timeline, never higher than
      the curve height, and it touches the timeline at the two pages. */
  function ForwardY(ref: Reference, x: real): (y: real)
    requires ref.fromPage != ref.toPage
    ensures Spans(ref, x) ==> 0.0 <= y <= CurveHeight(Abs(ref.toPage - ref.fromPage))
    ensures x == ref.fromPage as real || x == ref.toPage as real ==> y == 0.0
  {
    ArcOffset(CurveHeight(Abs(ref.toPage - ref.fromPage)), ArcParam(ref, x))
  }

  /** The height of a backward arc at abscissa `x`: the curve height is
      negated, so the arc is the forward arc mirrored below the timeline. */
  function BackwardY(ref: Reference, x: real): (y: real)
    requires ref.fromPage != ref.toPage
    ensures y == -ForwardY(ref, x)
    ensures Spans(ref, x) ==> -CurveHeight(Abs(ref.toPage - ref.fromPage)) <= y <= 0.0
    ensures x == ref.fromPage as real || x == ref.toPage as real ==> y == 0.0
  {
    -CurveHeight(Abs(ref.toPage - ref.fromPage)) * 4.0 * ArcParam(ref, x) * (1.0 - ArcParam(ref, x))
  }
}
