/**
 * `get_election_years` of the TSE downloader: the (year, url) pairs read
 * off the anchors of the candidates page, without duplicates, latest year
 * first.  An anchor is its `href` and its stripped text; the page is None
 * when fetching it failed, which ends the script with status 1.
 */
module TseYears {
  import opened Wrappers
  import opened Text
  import opened Url
  import opened TseResources

  datatype YearAnchor = YearAnchor(href: string, text: string)

  type Entry = (nat, string)

  // ---------------------------------------------------------------- \b(19|20)\d{2}\b

  /** The pattern matches at `i`: 19 or 20, two digits, and a word boundary on each side. */
  predicate YearMatchAt(s: string, i: nat) {
    i + 4 <= |s| &&
    ((s[i] == '1' && s[i + 1] == '9') || (s[i] == '2' && s[i + 1] == '0')) &&
    IsAsciiDigit(s[i + 2]) && IsAsciiDigit(s[i + 3]) &&
    (i == 0 || !IsWordChar(s[i - 1])) &&
    (i + 4 == |s| || !IsWordChar(s[i + 4]))
  }

  /** The leftmost match at or after `i`, as `re.search` finds it. */
  function FirstYearMatch(s: string, i: nat): (r: Option<nat>)
    ensures r.Some? ==> i <= r.value && YearMatchAt(s, r.value)
    ensures forall j :: i <= j && (r.None? || j < r.value) ==> !YearMatchAt(s, j)
    decreases |s| - i
  {
    if i + 4 > |s| then None
    else if YearMatchAt(s, i) then Some(i)
    else FirstYearMatch(s, i + 1)
  }

  /** The value of four ASCII digits. */
  function Digits4(t: string): (v: nat)
    requires |t| == 4 && AllAsciiDigits(t)
  {
    DecimalValue(t)
  }

  lemma Digits4Value(t: string)
    requires |t| == 4 && AllAsciiDigits(t)
    ensures Digits4(t) == 1000 * (t[0] as int - '0' as int) + 100 * (t[1] as int - '0' as int)
                          + 10 * (t[2] as int - '0' as int) + (t[3] as int - '0' as int)
  {
    var t1, t2, t3 := t[..1], t[..2], t[..3];
    assert t3[..2] == t2 && t2[..1] == t1 && t1[..0] == [];
    assert DecimalValue(t1) == t[0] as int - '0' as int;
    assert DecimalValue(t2) == 10 * DecimalValue(t1) + (t[1] as int - '0' as int);
    assert DecimalValue(t3) == 10 * DecimalValue(t2) + (t[2] as int - '0' as int);
    assert t[..4] == t;
  }

  /** `int(year_match.group())`: the year the first match spells. */
  function YearIn(text: string): (r: Option<nat>)
    ensures r.Some? ==> 1900 <= r.value <= 2099
  {
    match FirstYearMatch(text, 0)
    case None => None
    case Some(i) =>
      var t := text[i..i + 4];
      assert forall k :: 0 <= k < 4 ==> t[k] == text[i + k];
      Digits4Value(t);
      Some(Digits4(t))
  }

  // ---------------------------------------------------------------- anchors

  predicate HasDigit(s: string) { exists i :: 0 <= i < |s| && IsDigit(s[i]) }

  /** The anchors considered: their text mentions `Candidatos` and holds a digit. */
  predicate Candidate(a: YearAnchor) { Contains(a.text, "Candidatos") && HasDigit(a.text) }

  /** The full URL of an `href`: joined to the site when site-relative, kept when it starts with `http`. */
  function YearUrl(href: string): (r: Option<string>)
    ensures r.Some? ==> StartsWith(r.value, "http")
  {
    if StartsWith(href, "/") then
      assert !HasScheme(href) by { assert href[..1][0] == href[0]; }
      Some(JoinBase(href))
    else if StartsWith(href, "http") then Some(href)
    else None
  }

  /** The pair an anchor contributes, if any. */
  function EntryOf(a: YearAnchor): Option<Entry> {
    if !Candidate(a) then None
    else match YearIn(a.text)
      case None => None
      case Some(y) =>
        match YearUrl(a.href)
        case None => None
        case Some(u) => Some((y, u))
  }

  /** What each anchor contributes, in page order. */
  function Entries(anchors: seq<YearAnchor>): (es: seq<Option<Entry>>)
    ensures |es| == |anchors| && forall k :: 0 <= k < |anchors| ==> es[k] == EntryOf(anchors[k])
  {
    seq(|anchors|, k requires 0 <= k < |anchors| => EntryOf(anchors[k]))
  }

  /** The loop's list: each pair appended when first met. */
  function Dedup(es: seq<Option<Entry>>): seq<Entry> {
    if es == [] then []
    else
      var acc := Dedup(es[..|es| - 1]);
      match es[|es| - 1]
      case None => acc
      case Some(p) => if p in acc then acc else acc + [p]
  }

  /** The pairs in the order first found, each once. */
  function Collect(anchors: seq<YearAnchor>): seq<Entry> {
    Dedup(Entries(anchors))
  }

  predicate Distinct<T(==)>(s: seq<T>) { forall i, j :: 0 <= i < j < |s| ==> s[i] != s[j] }

  /** De-duplication keeps every pair met and no other, each once. */
  lemma {:induction false} DedupSpec(es: seq<Option<Entry>>)
    ensures Distinct(Dedup(es))
    ensures forall p :: p in Dedup(es) <==> Some(p) in es
  {
    if es != [] {
      var init := es[..|es| - 1];
      DedupSpec(init);
      assert es == init + [es[|es| - 1]];
    }
  }

  /** The collected pairs are exactly the anchors' pairs, each once. */
  lemma CollectSpec(anchors: seq<YearAnchor>)
    ensures Distinct(Collect(anchors))
    ensures forall p :: p in Collect(anchors) <==> exists k :: 0 <= k < |anchors| && EntryOf(anchors[k]) == Some(p)
  {
    var es := Entries(anchors);
    DedupSpec(es);
    forall p ensures Some(p) in es <==> exists k :: 0 <= k < |anchors| && EntryOf(anchors[k]) == Some(p) {
      if Some(p) in es {
        var k :| 0 <= k < |es| && es[k] == Some(p);
        assert EntryOf(anchors[k]) == Some(p);
      }
    }
  }

  // ---------------------------------------------------------------- sort(key=year, reverse=True)

  predicate Sorted(s: seq<Entry>) { forall i, j :: 0 <= i < j < |s| ==> s[i].0 >= s[j].0 }

  /** Places `x` after every pair of the same or a later year. */
  function Insert(s: seq<Entry>, x: Entry): (r: seq<Entry>)
    ensures multiset(r) == multiset(s) + multiset{x}
    ensures |r| == |s| + 1
  {
    if s == [] then [x]
    else if s[0].0 >= x.0 then
      assert s == [s[0]] + s[1..];
      [s[0]] + Insert(s[1..], x)
    else [x] + s
  }

  /** Python's sort by year, latest first, which keeps pairs of equal year in their order. */
  function SortByYear(s: seq<Entry>): (r: seq<Entry>)
    ensures multiset(r) == multiset(s)
  {
    if s == [] then []
    else
      assert s == s[..|s| - 1] + [s[|s| - 1]];
      Insert(SortByYear(s[..|s| - 1]), s[|s| - 1])
  }

  lemma {:induction false} InsertSorted(s: seq<Entry>, x: Entry)
    requires Sorted(s)
    ensures Sorted(Insert(s, x))
  {
    if s != [] && s[0].0 >= x.0 {
      InsertSorted(s[1..], x);
      var r := Insert(s, x);
      forall i, j | 0 <= i < j < |r| ensures r[i].0 >= r[j].0 {
        if i == 0 {
          assert r[j] in multiset(Insert(s[1..], x));
          assert r[j] == x || r[j] in s[1..];
        }
      }
    }
  }

  lemma {:induction false} SortByYearSorted(s: seq<Entry>)
    ensures Sorted(SortByYear(s))
  {
    if s != [] {
      SortByYearSorted(s[..|s| - 1]);
      InsertSorted(SortByYear(s[..|s| - 1]), s[|s| - 1]);
    }
  }

  /** The pairs of year `y`, in order. */
  function OfYear(s: seq<Entry>, y: nat): seq<Entry> {
    if s == [] then [] else (if s[0].0 == y then [s[0]] else []) + OfYear(s[1..], y)
  }

  lemma {:induction false} OfYearAppend(a: seq<Entry>, b: seq<Entry>, y: nat)
    ensures OfYear(a + b, y) == OfYear(a, y) + OfYear(b, y)
  {
    if a != [] {
      assert (a + b)[1..] == a[1..] + b;
      OfYearAppend(a[1..], b, y);
    } else {
      assert a + b == b;
    }
  }

  lemma {:induction false} OfYearNone(s: seq<Entry>, y: nat)
    requires forall i :: 0 <= i < |s| ==> s[i].0 < y
    ensures OfYear(s, y) == []
  {
    if s != [] {
      OfYearNone(s[1..], y);
    }
  }

  lemma {:induction false} InsertOfYear(s: seq<Entry>, x: Entry, y: nat)
    requires Sorted(s)
    ensures OfYear(Insert(s, x), y) == OfYear(s, y) + (if x.0 == y then [x] else [])
  {
    if s == [] {
      OfYearCons(x, [], y);
    } else if s[0].0 >= x.0 {
      SortedTail(s);
      InsertOfYear(s[1..], x, y);
      InsertOfYearPast(s, x, y);
    } else {
      InsertOfYearFront(s, x, y);
    }
  }

  lemma SortedTail(s: seq<Entry>)
    requires Sorted(s) && s != []
    ensures Sorted(s[1..])
  {
    var t := s[1..];
    forall i, j | 0 <= i < j < |t| ensures t[i].0 >= t[j].0 {
      assert t[i] == s[i + 1] && t[j] == s[j + 1];
    }
  }

  /** Inserting past the head: the head's pairs come first, then those of the insertion into the tail. */
  lemma InsertOfYearPast(s: seq<Entry>, x: Entry, y: nat)
    requires s != [] && s[0].0 >= x.0
    requires OfYear(Insert(s[1..], x), y) == OfYear(s[1..], y) + (if x.0 == y then [x] else [])
    ensures OfYear(Insert(s, x), y) == OfYear(s, y) + (if x.0 == y then [x] else [])
  {
    var t, r := s[1..], Insert(s[1..], x);
    var head: seq<Entry> := if s[0].0 == y then [s[0]] else [];
    var tail: seq<Entry> := if x.0 == y then [x] else [];
    InsertPast(s, x);
    OfYearCons(s[0], r, y);
    OfYearCons(s[0], t, y);
    calc {
      OfYear(Insert(s, x), y);
      OfYear([s[0]] + r, y);
      head + OfYear(r, y);
      head + (OfYear(t, y) + tail);
      { ConcatAssoc(head, OfYear(t, y), tail); }
      (head + OfYear(t, y)) + tail;
      OfYear([s[0]] + t, y) + tail;
      { assert [s[0]] + t == s; }
      OfYear(s, y) + tail;
    }
  }

  lemma ConcatAssoc<T>(a: seq<T>, b: seq<T>, c: seq<T>)
    ensures a + (b + c) == (a + b) + c
  {
  }

  lemma InsertPast(s: seq<Entry>, x: Entry)
    requires s != [] && s[0].0 >= x.0
    ensures Insert(s, x) == [s[0]] + Insert(s[1..], x)
  {
  }

  /** Inserting at the front of a sorted sequence of earlier years. */
  lemma InsertOfYearFront(s: seq<Entry>, x: Entry, y: nat)
    requires Sorted(s) && s != [] && s[0].0 < x.0
    ensures OfYear(Insert(s, x), y) == OfYear(s, y) + (if x.0 == y then [x] else [])
  {
    if x.0 == y {
      forall i | 0 <= i < |s| ensures s[i].0 < y {
        assert s[0].0 >= s[i].0;
      }
      OfYearNone(s, y);
    }
    assert Insert(s, x) == [x] + s;
    OfYearCons(x, s, y);
  }

  /** Taking the pairs of a year off the front of a sequence. */
  lemma OfYearCons(h: Entry, t: seq<Entry>, y: nat)
    ensures OfYear([h] + t, y) == (if h.0 == y then [h] else []) + OfYear(t, y)
  {
    assert ([h] + t)[0] == h && ([h] + t)[1..] == t;
  }

  /** The sort is stable: the pairs of any one year keep the order they were found in. */
  lemma {:induction false} SortByYearStable(s: seq<Entry>, y: nat)
    ensures OfYear(SortByYear(s), y) == OfYear(s, y)
  {
    if s != [] {
      var init, x := s[..|s| - 1], s[|s| - 1];
      var sorted := SortByYear(init);
      SortByYearStable(init, y);
      SortByYearSorted(init);
      InsertOfYear(sorted, x, y);
      OfYearLast(s, y);
    }
  }

  /** Taking the pairs of a year off the end of a sequence. */
  lemma OfYearLast(s: seq<Entry>, y: nat)
    requires s != []
    ensures OfYear(s, y) == OfYear(s[..|s| - 1], y) + (if s[|s| - 1].0 == y then [s[|s| - 1]] else [])
  {
    var x := s[|s| - 1];
    assert s == s[..|s| - 1] + [x];
    OfYearAppend(s[..|s| - 1], [x], y);
    var one: seq<Entry> := [x];
    assert one[1..] == [];
  }

  lemma {:induction false} InsertDistinct(s: seq<Entry>, x: Entry)
    requires Distinct(s) && x !in s
    ensures Distinct(Insert(s, x))
  {
    if s != [] && s[0].0 >= x.0 {
      InsertDistinct(s[1..], x);
      var r := Insert(s, x);
      forall j | 0 < j < |r| ensures r[0] != r[j] {
        assert r[j] in multiset(Insert(s[1..], x));
        assert r[j] == x || r[j] in s[1..];
      }
    }
  }

  lemma {:induction false} SortByYearDistinct(s: seq<Entry>)
    requires Distinct(s)
    ensures Distinct(SortByYear(s))
  {
    if s != [] {
      var init := s[..|s| - 1];
      SortByYearDistinct(init);
      var x := s[|s| - 1];
      assert x !in SortByYear(init) by {
        assert x !in multiset(init);
      }
      InsertDistinct(SortByYear(init), x);
    }
  }

  // ---------------------------------------------------------------- get_election_years

  function ElectionYears(page: Option<seq<YearAnchor>>): Option<seq<Entry>> {
    match page
    case None => None
    case Some(anchors) => Some(SortByYear(Collect(anchors)))
  }

  /**
   * What the script gets: no pair twice, latest year first, years from 1900
   * to 2099, absolute URLs, and exactly the pairs the anchors give.
   */
  lemma ElectionYearsSpec(anchors: seq<YearAnchor>)
    ensures var ys := ElectionYears(Some(anchors)).value;
      Distinct(ys) && Sorted(ys) &&
      (forall k :: 0 <= k < |ys| ==> 1900 <= ys[k].0 <= 2099 && StartsWith(ys[k].1, "http")) &&
      (forall p :: p in ys <==> exists k :: 0 <= k < |anchors| && EntryOf(anchors[k]) == Some(p))
  {
    var c := Collect(anchors);
    var ys := SortByYear(c);
    CollectSpec(anchors);
    SortByYearDistinct(c);
    SortByYearSorted(c);
    SortByYearMembers(c);
    forall k | 0 <= k < |ys| ensures 1900 <= ys[k].0 <= 2099 && StartsWith(ys[k].1, "http") {
      var j :| 0 <= j < |anchors| && EntryOf(anchors[j]) == Some(ys[k]);
      EntryOfBounds(anchors[j]);
    }
  }

  /** Sorting keeps the same pairs. */
  lemma SortByYearMembers(s: seq<Entry>)
    ensures forall p :: p in SortByYear(s) <==> p in s
  {
    forall p ensures p in SortByYear(s) <==> p in s {
      assert p in SortByYear(s) <==> p in multiset(SortByYear(s));
    }
  }

  /** A pair read off an anchor has a year in 1900..2099 and an absolute URL. */
  lemma EntryOfBounds(a: YearAnchor)
    ensures EntryOf(a).Some? ==> 1900 <= EntryOf(a).value.0 <= 2099 && StartsWith(EntryOf(a).value.1, "http")
  {
  }

  /** `get_election_years`: the loop over the anchors, then the sort. */
  method GetElectionYears(page: Option<seq<YearAnchor>>) returns (years: Option<seq<Entry>>)
    ensures years == ElectionYears(page)
  {
    if page.None? {
      return None;
    }
    var anchors := page.value;
    ghost var es := Entries(anchors);
    var found: seq<Entry> := [];
    var i := 0;
    while i < |anchors|
      invariant 0 <= i <= |anchors|
      invariant found == Dedup(es[..i])
    {
      var e := EntryOf(anchors[i]);
      assert es[..i + 1][..i] == es[..i] && es[..i + 1][i] == e;
      if e.Some? && e.value !in found {
        found := found + [e.value];
      }
      i := i + 1;
    }
    assert es[..i] == es;
    return Some(SortByYear(found));
  }
}
