/** The x coordinate of the date column (Nichinoken.__calc_date_column_Xcoord): the median
    centre of the tokens whose whole text is a one- or two-digit day number. */
module DateColumn {
  import opened Outcomes
  import opened Text
  import opened Words

  /** re.match(r'^[\d]{1,2}$', text): one or two digits, optionally followed by a final newline
      (`$` also matches just before a trailing newline). */
  predicate IsDayNumber(t: string)
  {
    OneOrTwoDigits(t) || (|t| >= 2 && t[|t| - 1] == '\n' && OneOrTwoDigits(t[..|t| - 1]))
  }

  /** The cx_list of __calc_date_column_Xcoord: the centres of the day-number tokens, in token order. */
  function CandidateXs(words: seq<Word>): (r: seq<real>)
    ensures |r| <= |words|
    ensures forall k :: 0 <= k < |r| ==>
      exists i :: 0 <= i < |words| && IsDayNumber(words[i].text) && words[i].cx == r[k]
    decreases |words|
  {
    if |words| == 0 then []
    else
      var w := words[|words| - 1];
      var prev := CandidateXs(words[..|words| - 1]);
      assert forall i :: 0 <= i < |words| - 1 ==> words[..|words| - 1][i] == words[i];
      prev + (if IsDayNumber(w.text) then [w.cx] else [])
  }

  /** Collecting over a concatenation collects over each part: CandidateXs is the filter that
      keeps exactly the day-number tokens, in order. */
  lemma {:induction false} CandidateXsConcat(a: seq<Word>, b: seq<Word>)
    ensures CandidateXs(a + b) == CandidateXs(a) + CandidateXs(b)
    decreases |b|
  {
    if |b| == 0 {
      assert a + b == a;
    } else {
      var b' := b[..|b| - 1];
      assert (a + b)[..|a + b| - 1] == a + b';
      CandidateXsConcat(a, b');
    }
  }

  /** One token contributes its centre exactly when its text is a day number; with
      CandidateXsConcat this fixes CandidateXs on every list, order and count included. */
  lemma CandidateXsWord(w: Word)
    ensures CandidateXs([w]) == if IsDayNumber(w.text) then [w.cx] else []
  {
    assert [w][..0] == [];
  }

  /** No day-number token is missed: its centre is collected at its own place among the others. */
  lemma CandidateXsComplete(words: seq<Word>, i: nat)
    requires i < |words| && IsDayNumber(words[i].text)
    ensures CandidateXs(words) == CandidateXs(words[..i]) + [words[i].cx] + CandidateXs(words[i + 1..])
    ensures words[i].cx in CandidateXs(words)
  {
    var a, w, b := words[..i], words[i], words[i + 1..];
    SplitAround(words, i);
    CandidateXsConcat(a + [w], b);
    CandidateXsConcat(a, [w]);
    CandidateXsWord(w);
    var r := CandidateXs(words);
    assert r == CandidateXs(a) + [w.cx] + CandidateXs(b);
    assert r[|CandidateXs(a)|] == w.cx;
  }

  lemma SplitAround(words: seq<Word>, i: nat)
    requires i < |words|
    ensures words == words[..i] + [words[i]] + words[i + 1..]
  {
  }

  /** The loop of __calc_date_column_Xcoord that fills cx_list. */
  method CollectCandidates(words: seq<Word>) returns (cxs: seq<real>)
    ensures cxs == CandidateXs(words)
  {
    cxs := [];
    var i := 0;
    while i < |words|
      invariant 0 <= i <= |words|
      invariant cxs == CandidateXs(words[..i])
    {
      assert words[..i + 1][..i] == words[..i];
      if IsDayNumber(words[i].text) {
        cxs := cxs + [words[i].cx];
      }
      i := i + 1;
    }
    assert words[..i] == words;
  }

  predicate Sorted(s: seq<real>)
  {
    forall i, j :: 0 <= i <= j < |s| ==> s[i] <= s[j]
  }

  function Insert(x: real, s: seq<real>): (r: seq<real>)
    requires Sorted(s)
    ensures |r| == |s| + 1
    ensures Sorted(r) && multiset(r) == multiset(s) + multiset{x}
    ensures r[0] == x || (|s| > 0 && r[0] == s[0])
    decreases |s|
  {
    if |s| == 0 then [x]
    else if x <= s[0] then [x] + s
    else
      var t := Insert(x, s[1..]);
      assert s == [s[0]] + s[1..];
      assert forall k :: 0 <= k < |t| ==> s[0] <= t[0] <= t[k];
      [s[0]] + t
  }

  /** sorted() on a list of floats, as np.median orders its input. */
  function Sort(xs: seq<real>): (r: seq<real>)
    ensures |r| == |xs|
    ensures Sorted(r) && multiset(r) == multiset(xs)
    decreases |xs|
  {
    if |xs| == 0 then []
    else
      assert xs == [xs[0]] + xs[1..];
      Insert(xs[0], Sort(xs[1..]))
  }

  /** np.median: the middle element of the sorted values, or the mean of the two middle ones
      for an even count; the median of nothing (NaN in numpy) is None. */
  function Median(xs: seq<real>): (r: Option<real>)
    ensures r.None? <==> |xs| == 0
    ensures r.Some? && |xs| % 2 == 1 ==> r.value in xs && r.value == Sort(xs)[|xs| / 2]
    ensures r.Some? && |xs| % 2 == 0 ==> r.value == (Sort(xs)[|xs| / 2 - 1] + Sort(xs)[|xs| / 2]) / 2.0
  {
    if |xs| == 0 then None
    else
      var s := Sort(xs);
      assert s[|s| / 2] in multiset(s);
      Some(Middle(s))
  }

  /** The middle of a non-empty sorted list. */
  function Middle(s: seq<real>): real
    requires |s| > 0
  {
    var n := |s|;
    if n % 2 == 1 then s[n / 2] else (s[n / 2 - 1] + s[n / 2]) / 2.0
  }

  function CountLess(s: seq<real>, m: real): nat
    decreases |s|
  {
    if |s| == 0 then 0 else (if s[0] < m then 1 else 0) + CountLess(s[1..], m)
  }

  function CountGreater(s: seq<real>, m: real): nat
    decreases |s|
  {
    if |s| == 0 then 0 else (if s[0] > m then 1 else 0) + CountGreater(s[1..], m)
  }

  lemma {:induction false} InsertCounts(x: real, s: seq<real>, m: real)
    requires Sorted(s)
    ensures CountLess(Insert(x, s), m) == CountLess(s, m) + (if x < m then 1 else 0)
    ensures CountGreater(Insert(x, s), m) == CountGreater(s, m) + (if x > m then 1 else 0)
    decreases |s|
  {
    if |s| > 0 && x > s[0] {
      InsertCounts(x, s[1..], m);
      assert ([s[0]] + Insert(x, s[1..]))[1..] == Insert(x, s[1..]);
    } else if |s| > 0 {
      assert ([x] + s)[1..] == s;
    }
  }

  /** Sorting changes no count. */
  lemma {:induction false} SortCounts(xs: seq<real>, m: real)
    ensures CountLess(Sort(xs), m) == CountLess(xs, m)
    ensures CountGreater(Sort(xs), m) == CountGreater(xs, m)
    decreases |xs|
  {
    if |xs| > 0 {
      SortCounts(xs[1..], m);
      InsertCounts(xs[0], Sort(xs[1..]), m);
    }
  }

  /** At most h elements lie below m when none at index h or later does. */
  lemma {:induction false} CountLessBound(s: seq<real>, m: real, h: nat)
    requires forall i :: h <= i < |s| ==> s[i] >= m
    ensures CountLess(s, m) <= h
    decreases |s|
  {
    if |s| > 0 {
      CountLessBound(s[1..], m, if h == 0 then 0 else h - 1);
    }
  }

  /** At most |s| - h elements lie above m when none before index h does. */
  lemma {:induction false} CountGreaterBound(s: seq<real>, m: real, h: nat)
    requires h <= |s| && forall i :: 0 <= i < h ==> s[i] <= m
    ensures CountGreater(s, m) <= |s| - h
    decreases |s|
  {
    if |s| > 0 {
      CountGreaterBound(s[1..], m, if h == 0 then 0 else h - 1);
    }
  }

  /** The median splits the values in halves: no more than half of them lie strictly below it
      and no more than half strictly above it. */
  lemma MedianHalves(xs: seq<real>)
    requires |xs| > 0
    ensures CountLess(xs, Median(xs).value) <= |xs| / 2
    ensures CountGreater(xs, Median(xs).value) <= |xs| / 2
  {
    var s := Sort(xs);
    SortCounts(xs, Middle(s));
    MiddleHalves(s);
  }

  /** The middle of a sorted list has at most half of the list on either side. */
  lemma MiddleHalves(s: seq<real>)
    requires |s| > 0 && Sorted(s)
    ensures CountLess(s, Middle(s)) <= |s| / 2
    ensures CountGreater(s, Middle(s)) <= |s| / 2
  {
    var n, m := |s|, Middle(s);
    if n % 2 == 1 {
      assert forall i :: n / 2 <= i < n ==> s[n / 2] <= s[i];
      assert forall i :: 0 <= i < n / 2 + 1 ==> s[i] <= s[n / 2];
      CountLessBound(s, m, n / 2);
      CountGreaterBound(s, m, n / 2 + 1);
    } else {
      var lo, hi := s[n / 2 - 1], s[n / 2];
      assert lo <= m <= hi;
      assert forall i :: n / 2 <= i < n ==> hi <= s[i];
      assert forall i :: 0 <= i < n / 2 ==> s[i] <= lo;
      CountLessBound(s, m, n / 2);
      CountGreaterBound(s, m, n / 2);
    }
  }

  /** The first element of a sorted sequence is its least element. */
  lemma SortedHead(a: seq<real>, x: real)
    requires Sorted(a) && x in multiset(a)
    ensures a[0] <= x
  {
    assert x in a;
    var i :| 0 <= i < |a| && a[i] == x;
    assert a[0] <= a[i];
  }

  /** Two sorted orderings of the same values are the same sequence. */
  lemma {:induction false} SortedUnique(a: seq<real>, b: seq<real>)
    requires Sorted(a) && Sorted(b) && multiset(a) == multiset(b)
    ensures a == b
    decreases |a|
  {
    assert |a| == |b| by { assert |multiset(a)| == |multiset(b)|; }
    if |a| > 0 {
      SameHeads(a, b);
      SameTails(a, b);
      SortedUnique(a[1..], b[1..]);
      assert a == [a[0]] + a[1..] && b == [b[0]] + b[1..];
    }
  }

  lemma SameHeads(a: seq<real>, b: seq<real>)
    requires |a| > 0 && |b| > 0 && Sorted(a) && Sorted(b) && multiset(a) == multiset(b)
    ensures a[0] == b[0]
  {
    assert a[0] in multiset(a) && b[0] in multiset(b);
    SortedHead(a, b[0]);
    SortedHead(b, a[0]);
  }

  lemma SameTails(a: seq<real>, b: seq<real>)
    requires |a| > 0 && |b| > 0 && Sorted(a) && Sorted(b) && multiset(a) == multiset(b) && a[0] == b[0]
    ensures Sorted(a[1..]) && Sorted(b[1..]) && multiset(a[1..]) == multiset(b[1..])
  {
    SortedTail(a);
    SortedTail(b);
  }

  /** Dropping the head keeps a sorted sequence sorted and removes one copy of the head. */
  lemma SortedTail(a: seq<real>)
    requires |a| > 0 && Sorted(a)
    ensures Sorted(a[1..]) && multiset(a[1..]) == multiset(a) - multiset{a[0]}
  {
    assert a == [a[0]] + a[1..];
  }

  /** The median depends on the values only, not on the order of the tokens. */
  lemma MedianPermutation(a: seq<real>, b: seq<real>)
    requires multiset(a) == multiset(b)
    ensures Median(a) == Median(b)
  {
    SortedUnique(Sort(a), Sort(b));
  }

  /** __calc_date_column_Xcoord: the median of the day-number centres (None when there are no
      day-number tokens, where numpy returns NaN). */
  method DateColumnX(words: seq<Word>) returns (r: Option<real>)
    ensures r == Median(CandidateXs(words))
  {
    var cxs := CollectCandidates(words);
    r := Median(cxs);
  }
}
