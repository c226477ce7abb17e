/**
 * `prompt_year_selection` of the TSE downloader: the answer line that picks
 * which election years to download out of the list `get_election_years`
 * returned (latest first).  A line is `all`/`a`, `last N`/`l N`, or a
 * comma-separated list of 1-based positions; a line that selects nothing
 * usable is rejected and the prompt asks again.
 */
module TseSelection {
  import opened Wrappers
  import opened Text
  import opened TseYears

  /** What one answer line asks for, once stripped and lower-cased. */
  datatype Selection = All | Last(n: int) | Indices(idxs: seq<int>) | Invalid

  // ---------------------------------------------------------------- reading a line

  /** The index of the last whitespace character of `s`, or -1 when there is none. */
  function LastSpace(s: string): (i: int)
    ensures -1 <= i < |s|
    ensures 0 <= i ==> IsSpace(s[i])
    ensures forall j :: i < j < |s| ==> !IsSpace(s[j])
  {
    if s == [] then -1 else if IsSpace(s[|s| - 1]) then |s| - 1 else LastSpace(s[..|s| - 1])
  }

  /**
   * `s.split()[-1]`: the last whitespace-separated word, which is followed
   * only by whitespace and preceded by whitespace or nothing; None, the
   * `IndexError`, when `s` holds nothing but whitespace.
   */
  function LastWord(s: string): (r: Option<string>)
    ensures r.None? <==> forall i :: 0 <= i < |s| ==> IsSpace(s[i])
    ensures r.Some? ==> r.value != [] && forall i :: 0 <= i < |r.value| ==> !IsSpace(r.value[i])
    ensures r.Some? ==> var t := RStripSpace(s);
      EndsWith(t, r.value) && (|r.value| == |t| || IsSpace(t[|t| - |r.value| - 1]))
  {
    var t := RStripSpace(s);
    RStripSpaceDropsSpaces(s);
    if t == [] then None
    else
      var k := LastSpace(t);
      Some(t[k + 1..])
  }

  /** What `rstrip()` removes is whitespace. */
  lemma {:induction false} RStripSpaceDropsSpaces(s: string)
    ensures forall i :: |RStripSpace(s)| <= i < |s| ==> IsSpace(s[i])
  {
    if s != [] && IsSpace(s[|s| - 1]) {
      RStripSpaceDropsSpaces(s[..|s| - 1]);
    }
  }

  /**
   * `[int(x.strip()) for x in parts]`: every part's integer, or None, the
   * `ValueError`, when any part is not one.
   */
  function ParseAll(parts: seq<string>): (r: Option<seq<int>>)
    ensures r.Some? <==> forall k :: 0 <= k < |parts| ==> ParseInt(Strip(parts[k])).Some?
    ensures r.Some? ==> |r.value| == |parts|
    ensures r.Some? ==> forall k :: 0 <= k < |parts| ==> ParseInt(Strip(parts[k])) == Some(r.value[k])
  {
    if parts == [] then Some([])
    else
      match ParseInt(Strip(parts[0]))
      case None => None
      case Some(v) =>
        match ParseAll(parts[1..])
        case None =>
          assert forall k :: 0 <= k < |parts| - 1 ==> parts[1..][k] == parts[k + 1];
          None
        case Some(vs) =>
          assert forall k :: 1 <= k < |parts| ==> parts[k] == parts[1..][k - 1];
          Some([v] + vs)
  }

  /** `input(...).strip().lower()`. */
  function Normalize(answer: string): string {
    Lower(Strip(answer))
  }

  /** What a stripped, lower-cased line asks for. */
  function Interpret(c: string): Selection {
    if c == "all" || c == "a" then All
    else if StartsWith(c, "last ") || StartsWith(c, "l ") then
      match LastWord(c)
      case None => Invalid
      case Some(w) =>
        match ParseInt(w)
        case None => Invalid
        case Some(n) => Last(n)
    else
      match ParseAll(Split(c, ','))
      case None => Invalid
      case Some(idxs) => Indices(idxs)
  }

  function ReadChoice(answer: string): Selection {
    Interpret(Normalize(answer))
  }

  // ---------------------------------------------------------------- applying it

  function Min(a: int, b: int): int { if a <= b then a else b }

  function Max(a: int, b: int): int { if a >= b then a else b }

  /** `s[:n]`: the first `n` elements, or all but the last `-n` when `n` is negative. */
  function PyPrefix(s: seq<Entry>, n: int): (r: seq<Entry>)
    ensures |r| == if n >= 0 then Min(n, |s|) else Max(0, |s| + n)
    ensures r == s[..|r|]
  {
    if n >= 0 then s[..Min(n, |s|)] else s[..Max(0, |s| + n)]
  }

  /** The loop over the positions: the in-range ones pick their year, in order, repeats included. */
  function Picks(ys: seq<Entry>, idxs: seq<int>): (r: seq<Entry>)
    ensures |r| <= |idxs|
    ensures forall k :: 0 <= k < |r| ==> r[k] in ys
  {
    if idxs == [] then []
    else
      var init := Picks(ys, idxs[..|idxs| - 1]);
      var i := idxs[|idxs| - 1];
      if 1 <= i <= |ys| then init + [ys[i - 1]] else init
  }

  /** The positions between 1 and `n`, in order. */
  function InRange(idxs: seq<int>, n: nat): (v: seq<int>)
    ensures forall k :: 0 <= k < |v| ==> 1 <= v[k] <= n
  {
    if idxs == [] then []
    else
      var init := InRange(idxs[..|idxs| - 1], n);
      var i := idxs[|idxs| - 1];
      if 1 <= i <= n then init + [i] else init
  }

  /** The picks are the valid positions, filtered first, each mapped to its year. */
  lemma {:induction false} PicksSpec(ys: seq<Entry>, idxs: seq<int>)
    ensures var v := InRange(idxs, |ys|);
      Picks(ys, idxs) == seq(|v|, k requires 0 <= k < |v| => ys[v[k] - 1])
  {
    if idxs != [] {
      PicksSpec(ys, idxs[..|idxs| - 1]);
    }
  }

  /** The years a selection gives; None asks again. */
  function Apply(sel: Selection, ys: seq<Entry>): Option<seq<Entry>> {
    match sel
    case All => Some(ys)
    case Last(n) => Some(PyPrefix(ys, n))
    case Indices(idxs) =>
      var p := Picks(ys, idxs);
      if p == [] then None else Some(p)
    case Invalid => None
  }

  /**
   * Since the years come latest first, `last N` gives the N latest
   * elections: every year kept is no earlier than any year left out.
   */
  lemma LastSelectsLatest(ys: seq<Entry>, n: nat)
    requires Sorted(ys)
    ensures var r := Apply(Last(n), ys).value;
      r == ys[..|r|] && |r| == Min(n, |ys|) &&
      forall i, j :: 0 <= i < |r| <= j < |ys| ==> r[i].0 >= ys[j].0
  {
  }

  /**
   * The selection is accepted yet empty only for `all` over no years or a
   * `last N` that keeps none, which makes `main` stop with status 0; an
   * empty list of positions is rejected and asked again.
   */
  lemma EmptySelection(sel: Selection, ys: seq<Entry>)
    ensures Apply(sel, ys) == Some([]) <==>
      (sel.All? && ys == []) || (sel.Last? && (ys == [] || sel.n == 0 || sel.n <= -|ys|))
  {
    if sel.Last? && Apply(sel, ys) == Some([]) {
      assert |PyPrefix(ys, sel.n)| == 0;
    }
  }

  /** A line of lower-case letters, digits and inner spaces is already normalized. */
  lemma NormalizePlain(a: string)
    requires forall i :: 0 <= i < |a| ==> 'a' <= a[i] <= 'z' || IsAsciiDigit(a[i]) || a[i] == ' '
    requires a != [] ==> a[0] != ' ' && a[|a| - 1] != ' '
    ensures Normalize(a) == a
  {
    if a != [] {
      assert !IsSpace(a[0]) && !IsSpace(a[|a| - 1]);
    }
    StripUnspaced(a);
    LowerPlain(a);
  }

  /** A lower-case letter, a digit or a space is its own lower case. */
  lemma LowerPlain(s: string)
    requires forall i :: 0 <= i < |s| ==> 'a' <= s[i] <= 'z' || IsAsciiDigit(s[i]) || s[i] == ' '
    ensures Lower(s) == s
  {
  }

  lemma ParseDecimal(n: nat)
    ensures ParseInt(NatToDecimal(n)) == Some(n)
  {
    DecimalRoundTrip(n);
  }

  lemma {:induction false} LastSpaceDigits(p: string, d: string)
    requires forall i :: 0 <= i < |d| ==> IsAsciiDigit(d[i])
    ensures LastSpace(p + d) == LastSpace(p)
    decreases |d|
  {
    if d != [] {
      var s := p + d;
      assert s[..|s| - 1] == p + d[..|d| - 1];
      LastSpaceDigits(p, d[..|d| - 1]);
    } else {
      assert p + d == p;
    }
  }

  /** The word after `last ` or `l ` is the number typed. */
  lemma LastWordOfKey(key: string, d: string)
    requires key == "last " || key == "l "
    requires d != [] && forall i :: 0 <= i < |d| ==> IsAsciiDigit(d[i])
    ensures LastWord(key + d) == Some(d)
  {
    var a := key + d;
    assert a[..|key|] == key;
    LastSpaceDigits(key, d);
    assert RStripSpace(a) == a by {
      assert a[|a| - 1] == d[|d| - 1];
    }
    assert a[|key|..] == d;
  }

  lemma InterpretLast(key: string, n: nat)
    requires key == "last " || key == "l "
    ensures Interpret(key + NatToDecimal(n)) == Last(n)
  {
    var a := key + NatToDecimal(n);
    assert a[..|key|] == key;
    assert a != "all" && a != "a" by { assert a[0] == 'l'; }
    LastWordOfKey(key, NatToDecimal(n));
    ParseDecimal(n);
  }

  /** Typing `last N` or `l N` reads back as `Last(N)`. */
  lemma LastRoundTrip(key: string, n: nat)
    requires key == "last " || key == "l "
    ensures ReadChoice(key + NatToDecimal(n)) == Last(n)
  {
    var d := NatToDecimal(n);
    var a := key + d;
    assert a[|a| - 1] == d[|d| - 1];
    NormalizePlain(a);
    InterpretLast(key, n);
  }

  lemma InterpretIndex(k: nat)
    ensures Interpret(NatToDecimal(k)) == Indices([k])
  {
    var c := NatToDecimal(k);
    assert c != "all" && c != "a" by { assert c[0] != 'a'; }
    assert !StartsWith(c, "last ") && !StartsWith(c, "l ") by { assert c[..1][0] == c[0]; }
    assert IndexOf(c, ',') == |c|;
    SplitWithoutSep(c, ',');
    StripUnspaced(c);
    ParseDecimal(k);
    var r := ParseAll([c]);
    assert [c][0] == c;
    assert r.Some? && r.value[0] == k;
    assert r.value == [k];
  }

  /** Typing one position reads back as that position alone. */
  lemma IndexRoundTrip(k: nat)
    ensures ReadChoice(NatToDecimal(k)) == Indices([k])
  {
    NormalizePlain(NatToDecimal(k));
    InterpretIndex(k);
  }

  // ---------------------------------------------------------------- the prompt

  /** What each answer line selects, in order. */
  function Replies(ys: seq<Entry>, answers: seq<string>): (r: seq<Option<seq<Entry>>>)
    ensures |r| == |answers|
    ensures forall i :: 0 <= i < |answers| ==> r[i] == Apply(ReadChoice(answers[i]), ys)
    ensures forall i :: 0 <= i < |r| ==> (r[i].None? <==> Rejected(ReadChoice(answers[i]), |ys|))
    ensures forall i, e :: 0 <= i < |r| && r[i].Some? && e in r[i].value ==> e in ys
  {
    var r := seq(|answers|, i requires 0 <= i < |answers| => Apply(ReadChoice(answers[i]), ys));
    assert forall i :: 0 <= i < |r| ==> ApplyFacts(ReadChoice(answers[i]), ys, r[i]) by {
      forall i | 0 <= i < |r| ensures ApplyFacts(ReadChoice(answers[i]), ys, r[i]) {
        ApplyAccepts(ReadChoice(answers[i]), ys);
      }
    }
    r
  }

  /** An answer asks again when it cannot be read, or when none of its positions is in range. */
  predicate Rejected(sel: Selection, n: nat) {
    sel.Invalid? || (sel.Indices? && InRange(sel.idxs, n) == [])
  }

  predicate ApplyFacts(sel: Selection, ys: seq<Entry>, r: Option<seq<Entry>>) {
    (r.None? <==> Rejected(sel, |ys|)) && (r.Some? ==> forall e :: e in r.value ==> e in ys)
  }

  /** A selection is refused exactly when it is rejected, and otherwise gives only listed years. */
  lemma ApplyAccepts(sel: Selection, ys: seq<Entry>)
    ensures ApplyFacts(sel, ys, Apply(sel, ys))
  {
    if sel.Indices? {
      PicksSpec(ys, sel.idxs);
    }
    if sel.Last? {
      var p := PyPrefix(ys, sel.n);
      assert forall e :: e in p ==> e in ys;
    }
  }

  /** The years chosen by the first accepted line and the lines read; None when the lines run out. */
  function SelectYears(ys: seq<Entry>, answers: seq<string>): Option<(seq<Entry>, nat)>
    decreases |answers|
  {
    if answers == [] then None
    else match Apply(ReadChoice(answers[0]), ys)
      case Some(picked) => Some((picked, 1))
      case None => Later(SelectYears(ys, answers[1..]), 1)
  }

  /** A selection made `k` lines further on. */
  function Later(r: Option<(seq<Entry>, nat)>, k: nat): Option<(seq<Entry>, nat)> {
    if r.None? then None else Some((r.value.0, r.value.1 + k))
  }

  /**
   * The prompt returns what the first accepted line selects, after reading
   * exactly the lines up to it, every earlier one rejected; it runs out of
   * input only when every line is rejected.
   */
  lemma {:induction false} SelectYearsFirst(ys: seq<Entry>, answers: seq<string>)
    ensures SelectYears(ys, answers) == FirstSome(Replies(ys, answers))
    decreases |answers|
  {
    if answers != [] {
      var rs := Replies(ys, answers);
      SelectYearsFirst(ys, answers[1..]);
      RepliesTail(ys, answers);
      FirstSomeStep(rs);
      var head := Apply(ReadChoice(answers[0]), ys);
      assert rs[0] == head;
      assert SelectYears(ys, answers) == if head.Some? then Some((head.value, 1)) else Later(SelectYears(ys, answers[1..]), 1);
    }
  }

  lemma RepliesTail(ys: seq<Entry>, answers: seq<string>)
    requires answers != []
    ensures Replies(ys, answers[1..]) == Replies(ys, answers)[1..]
  {
  }

  lemma FirstSomeStep(rs: seq<Option<seq<Entry>>>)
    requires rs != []
    ensures FirstSome(rs) == if rs[0].Some? then Some((rs[0].value, 1)) else Later(FirstSome(rs[1..]), 1)
  {
  }

  /** The prompt reads at least one line and no more lines than there are. */
  lemma {:induction false} SelectYearsReads(ys: seq<Entry>, answers: seq<string>)
    ensures SelectYears(ys, answers).Some? ==> 1 <= SelectYears(ys, answers).value.1 <= |answers|
    decreases |answers|
  {
    if answers != [] {
      SelectYearsReads(ys, answers[1..]);
    }
  }

  /** The index loop of the comma-separated case. */
  method SelectIndices(ys: seq<Entry>, idxs: seq<int>) returns (selected: seq<Entry>)
    ensures selected == Picks(ys, idxs)
  {
    selected := [];
    for i := 0 to |idxs|
      invariant selected == Picks(ys, idxs[..i])
    {
      var idx := idxs[i];
      if 1 <= idx <= |ys| {
        selected := selected + [ys[idx - 1]];
      }
      assert idxs[..i + 1][..i] == idxs[..i];
    }
    assert idxs[..|idxs|] == idxs;
  }

  /** One pass of the prompt: the years the line selects, or None to ask again. */
  method ReadOne(ys: seq<Entry>, answer: string) returns (picked: Option<seq<Entry>>)
    ensures picked == Apply(ReadChoice(answer), ys)
  {
    var sel := ReadChoice(answer);
    picked := None;
    match sel {
      case All => picked := Some(ys);
      case Last(n) => picked := Some(PyPrefix(ys, n));
      case Indices(idxs) =>
        var selected := SelectIndices(ys, idxs);
        if selected != [] {
          picked := Some(selected);
        }
      case Invalid =>
    }
  }

  /** The `while True` prompt, reading `answers` in turn. */
  method PromptYearSelection(ys: seq<Entry>, answers: seq<string>) returns (r: Option<(seq<Entry>, nat)>)
    ensures r == SelectYears(ys, answers)
  {
    var i := 0;
    while i < |answers|
      invariant 0 <= i <= |answers|
      invariant SelectYears(ys, answers) == Later(SelectYears(ys, answers[i..]), i)
    {
      var picked := ReadOne(ys, answers[i]);
      assert answers[i..][0] == answers[i] && answers[i..][1..] == answers[i + 1..];
      if picked.Some? {
        return Some((picked.value, i + 1));
      }
      i := i + 1;
    }
    return None;
  }
}
