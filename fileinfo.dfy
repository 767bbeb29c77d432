/** The target year and month: Nichinoken.__get_info_from_filename (the pattern
    `(\d\d)(\d\d).json$` searched in the file name) and Nichinoken.__extract_month (the
    pattern `(\d+)月号` searched in each token's text). */
module FileInfo {
  import opened Outcomes
  import opened Text
  import opened Words

  /** The pattern `\d\d\d\d.json` laid over f at position i (`.` is any character but a newline). */
  predicate PatternAt(f: string, i: int)
  {
    0 <= i && i + 9 <= |f| && AllDigits(f[i..i + 4]) && f[i + 4] != '\n' && f[i + 5..i + 9] == "json"
  }

  /** Where re.search finds the anchored pattern. The pattern has a fixed length and `$` holds
      only at the end of the name or just before a final newline, so at most one position can
      match. */
  function MatchStart(f: string): (r: Option<nat>)
    ensures r.Some? ==>
      PatternAt(f, r.value) && (r.value + 9 == |f| || (r.value + 10 == |f| && f[|f| - 1] == '\n'))
    ensures r.None? ==>
      !(|f| >= 9 && PatternAt(f, |f| - 9)) && !(|f| >= 10 && f[|f| - 1] == '\n' && PatternAt(f, |f| - 10))
  {
    if |f| >= 9 && PatternAt(f, |f| - 9) then Some(|f| - 9)
    else if |f| >= 10 && f[|f| - 1] == '\n' && PatternAt(f, |f| - 10) then Some(|f| - 10)
    else None
  }

  /** The (year, month) pair __get_info_from_filename returns; -1 marks an unknown value. */
  datatype YearMonth = YearMonth(year: int, month: int)

  /** __get_info_from_filename. */
  function InfoFromFilename(f: string): (r: YearMonth)
    ensures MatchStart(f).None? <==> r == YearMonth(-1, -1)
    ensures r.year == -1 <==> r.month == -1
    ensures r.year != -1 ==> 2000 <= r.year <= 2099 && 0 <= r.month <= 99
  {
    match MatchStart(f)
    case None => YearMonth(-1, -1)
    case Some(i) =>
      DigitsSlice(f[i..i + 4], 0, 2);
      DigitsSlice(f[i..i + 4], 2, 4);
      assert f[i..i + 4][0..2] == f[i..i + 2] && f[i..i + 4][2..4] == f[i + 2..i + 4];
      TwoDigitsValue(f[i..i + 2]);
      TwoDigitsValue(f[i + 2..i + 4]);
      YearMonth(2000 + DigitsValue(f[i..i + 2]), DigitsValue(f[i + 2..i + 4]))
  }

  /** A two-digit string is its own zero-padded rendering. */
  lemma PadTwoDigits(s: string)
    requires |s| == 2 && AllDigits(s)
    ensures PadNat(DigitsValue(s), 2) == s
  {
    TwoDigitsValue(s);
    var a, b := DigitValue(s[0]), DigitValue(s[1]);
    var v := 10 * a + b;
    assert DigitChar(a) == s[0] && DigitChar(b) == s[1];
    assert s == [s[0]] + [s[1]];
    if a == 0 {
      assert NatToString(v) == [s[1]];
      assert Zeros(1) == [s[0]];
      assert PadNat(v, 2) == Zeros(1) + [s[1]];
    } else {
      assert v / 10 == a && v % 10 == b;
      assert NatToString(v) == NatToString(a) + [DigitChar(b)];
      assert NatToString(a) == [s[0]];
      assert PadNat(v, 2) == NatToString(v);
    }
  }

  /** The name __get_info_from_filename recognises: any prefix, two digits of year, two of month, one
      character and "json", optionally followed by one newline. */
  function ScheduleFileName(prefix: string, yy: nat, mm: nat, c: char, newline: bool): string
    requires yy < 100 && mm < 100
  {
    prefix + PadNat(yy, 2) + PadNat(mm, 2) + [c] + "json" + (if newline then "\n" else "")
  }

  /** Reading a name built with year 20yy and month mm gives back exactly that year and month. */
  lemma FilenameRoundTrip(prefix: string, yy: nat, mm: nat, c: char, newline: bool)
    requires yy < 100 && mm < 100 && c != '\n'
    ensures InfoFromFilename(ScheduleFileName(prefix, yy, mm, c, newline)) == YearMonth(2000 + yy, mm)
  {
    NatToStringLength(yy, 2);
    NatToStringLength(mm, 2);
    var f := ScheduleFileName(prefix, yy, mm, c, newline);
    var p, m := PadNat(yy, 2), PadNat(mm, 2);
    var i := |prefix|;
    NameLayout(prefix, p, m, c, if newline then "\n" else "");
    assert PatternAt(f, i) by {
      assert forall k :: 0 <= k < 4 ==> (p + m)[k] == if k < 2 then p[k] else m[k - 2];
    }
    assert MatchStart(f) == Some(i) by {
      if newline {
        assert !PatternAt(f, |f| - 9) by { assert f[|f| - 9 + 5..|f| - 9 + 9][3] == '\n'; }
      }
    }
    assert InfoFromFilename(f) == YearMonth(2000 + DigitsValue(p), DigitsValue(m));
  }

  /** Where the fields of a name lie. */
  lemma NameLayout(prefix: string, p: string, m: string, c: char, tail: string)
    requires |p| == 2 && |m| == 2
    ensures var f, i := prefix + p + m + [c] + "json" + tail, |prefix|;
      |f| == i + 9 + |tail| && f[i..i + 2] == p && f[i + 2..i + 4] == m && f[i..i + 4] == p + m && f[i + 4] == c && f[i + 5..i + 9] == "json" &&
      f[i + 9..] == tail && (|tail| > 0 ==> f[|f| - 1] == tail[|tail| - 1])
  {
    var f, i := prefix + p + m + [c] + "json" + tail, |prefix|;
    assert f == (prefix + (p + m)) + ([c] + "json" + tail);
  }

  /** Conversely, every name from which a year is read has that shape. */
  lemma FilenameShape(f: string) returns (prefix: string, c: char, newline: bool)
    requires InfoFromFilename(f).year != -1
    ensures c != '\n'
    ensures f == ScheduleFileName(prefix, InfoFromFilename(f).year - 2000, InfoFromFilename(f).month, c, newline)
  {
    var i := MatchStart(f).value;
    var g := f[i..i + 4];
    DigitsSlice(g, 0, 2);
    DigitsSlice(g, 2, 4);
    assert g[0..2] == f[i..i + 2] && g[2..4] == f[i + 2..i + 4];
    PadTwoDigits(f[i..i + 2]);
    PadTwoDigits(f[i + 2..i + 4]);
    prefix, c, newline := f[..i], f[i + 4], i + 10 == |f|;
    var yy, mm := DigitsValue(f[i..i + 2]), DigitsValue(f[i + 2..i + 4]);
    assert InfoFromFilename(f) == YearMonth(2000 + yy, mm);
    SplitName(f, i, newline);
    assert ScheduleFileName(prefix, yy, mm, c, newline) == f by {
      assert PadNat(yy, 2) == f[i..i + 2] && PadNat(mm, 2) == f[i + 2..i + 4];
    }
  }

  lemma SplitName(f: string, i: nat, newline: bool)
    requires i + 9 <= |f| && f[i + 5..i + 9] == "json"
    requires |f| == i + 9 + (if newline then 1 else 0) && (newline ==> f[|f| - 1] == '\n')
    ensures f == f[..i] + f[i..i + 2] + f[i + 2..i + 4] + [f[i + 4]] + "json" + (if newline then "\n" else "")
  {
    var tail := if newline then "\n" else "";
    assert f[i + 9..] == tail;
    assert f == f[..i] + f[i..i + 2] + f[i + 2..i + 4] + [f[i + 4]] + f[i + 5..i + 9] + f[i + 9..];
  }

  /** The end of the run of ASCII digits that starts at i. */
  function DigitRunEnd(s: string, i: nat): (j: nat)
    requires i <= |s|
    ensures i <= j <= |s| && AllDigits(s[i..j])
    ensures j == |s| || !IsDigit(s[j])
    decreases |s| - i
  {
    if i < |s| && IsDigit(s[i]) then DigitRunEnd(s, i + 1) else i
  }

  /** re.search finds `(\d+)月号` starting at i: the greedy digit run from i is followed by
      "月号" (backing off the run cannot help, because then a digit follows it). */
  predicate MonthAt(s: string, i: nat)
  {
    i < |s| && IsDigit(s[i]) && DigitRunEnd(s, i) + 2 <= |s| &&
    s[DigitRunEnd(s, i)..DigitRunEnd(s, i) + 2] == "月号"
  }

  /** The scan of re.search from position i onwards. */
  function MonthFrom(s: string, i: nat): (r: Option<string>)
    requires i <= |s|
    ensures r.Some? ==> 0 < |r.value| && AllDigits(r.value)
    decreases |s| - i
  {
    if i == |s| then None
    else if MonthAt(s, i) then Some(s[i..DigitRunEnd(s, i)])
    else MonthFrom(s, i + 1)
  }

  /** The group of the leftmost match of `(\d+)月号` in s, if any. */
  function MonthInText(s: string): (r: Option<string>)
    ensures r.Some? ==> 0 < |r.value| && AllDigits(r.value)
  {
    MonthFrom(s, 0)
  }

  /** The scan from i finds nothing exactly when no match starts at i or later, and otherwise
      returns the group of the leftmost match. */
  lemma {:induction false} MonthFromSpec(s: string, i: nat)
    requires i <= |s|
    ensures MonthFrom(s, i).None? <==> forall k :: i <= k < |s| ==> !MonthAt(s, k)
    ensures MonthFrom(s, i).Some? ==>
      exists k :: i <= k < |s| && MonthAt(s, k) &&
        MonthFrom(s, i).value == s[k..DigitRunEnd(s, k)] && (forall k' :: i <= k' < k ==> !MonthAt(s, k'))
    decreases |s| - i
  {
    if i == |s| {
    } else if MonthAt(s, i) {
      assert MonthFrom(s, i) == Some(s[i..DigitRunEnd(s, i)]);
    } else {
      assert MonthFrom(s, i) == MonthFrom(s, i + 1);
      MonthFromSpec(s, i + 1);
      if MonthFrom(s, i + 1).Some? {
        var k :| i + 1 <= k < |s| && MonthAt(s, k) &&
          MonthFrom(s, i + 1).value == s[k..DigitRunEnd(s, k)] && (forall k' :: i + 1 <= k' < k ==> !MonthAt(s, k'));
        assert forall k' :: i <= k' < k ==> !MonthAt(s, k');
      }
    }
  }

  /** MonthInText is re.search's leftmost match: None exactly when no position matches. */
  lemma MonthInTextSpec(s: string)
    ensures MonthInText(s).None? <==> forall k :: 0 <= k < |s| ==> !MonthAt(s, k)
    ensures MonthInText(s).Some? ==>
      exists k :: 0 <= k < |s| && MonthAt(s, k) &&
        MonthInText(s).value == s[k..DigitRunEnd(s, k)] && (forall k' :: 0 <= k' < k ==> !MonthAt(s, k'))
  {
    MonthFromSpec(s, 0);
  }

  /** A token that opens with "<n>月号" names month n. */
  lemma {:induction false} MonthOfMarker(n: nat, rest: string)
    ensures MonthInText(NatToString(n) + "月号" + rest) == Some(NatToString(n))
  {
    var d := NatToString(n);
    var s := d + "月号" + rest;
    assert s[0..|d|] == d;
    assert s[|d|] == '月';
    DigitRunOver(s, 0, |d|);
    assert s[|d|..|d| + 2] == "月号";
    assert MonthAt(s, 0);
  }

  /** On a digit run s[i..j] followed by a non-digit, the run ends at j. */
  lemma {:induction false} DigitRunOver(s: string, i: nat, j: nat)
    requires i <= j < |s| && AllDigits(s[i..j]) && !IsDigit(s[j])
    ensures DigitRunEnd(s, i) == j
    decreases j - i
  {
    if i < j {
      assert IsDigit(s[i..j][0]);
      assert s[i + 1..j] == s[i..j][1..];
      DigitRunOver(s, i + 1, j);
    }
  }

  /** __extract_month: the month group of the first token (in list order) that has one. */
  function ExtractMonth(words: seq<Word>): (r: Option<string>)
    ensures r.None? <==> forall i :: 0 <= i < |words| ==> MonthInText(words[i].text).None?
    ensures r.Some? ==> exists i :: 0 <= i < |words| && MonthInText(words[i].text) == r &&
                                    (forall i' :: 0 <= i' < i ==> MonthInText(words[i'].text).None?)
  {
    ExtractMonthFrom(words, 0)
  }

  /** The scan of __extract_month from token i onwards. */
  function ExtractMonthFrom(words: seq<Word>, i: nat): (r: Option<string>)
    requires i <= |words|
    ensures r.None? <==> forall k :: i <= k < |words| ==> MonthInText(words[k].text).None?
    ensures r.Some? ==> exists k :: i <= k < |words| && MonthInText(words[k].text) == r &&
                                    (forall k' :: i <= k' < k ==> MonthInText(words[k'].text).None?)
    decreases |words| - i
  {
    if i == |words| then None
    else if MonthInText(words[i].text).Some? then MonthInText(words[i].text)
    else ExtractMonthFrom(words, i + 1)
  }

  /** __extract_month: the loop over the tokens that stops at the first month marker. */
  method ReadMonth(words: seq<Word>) returns (r: Option<string>)
    ensures r == ExtractMonth(words)
  {
    var i := 0;
    while i < |words|
      invariant 0 <= i <= |words|
      invariant ExtractMonthFrom(words, i) == ExtractMonth(words)
    {
      var m := MonthInText(words[i].text);
      if m.Some? {
        return m;
      }
      i := i + 1;
    }
    return None;
  }
}
