/** The string operations the schedule reader relies on: ASCII digits and int()/str(),
    substring search, str.replace, str.split(" ")[0], str.strip, Python slicing, str.join. */
module Text {

  predicate IsDigit(c: char) { '0' <= c <= '9' }

  predicate AllDigits(s: string) { forall i :: 0 <= i < |s| ==> IsDigit(s[i]) }

  /** The `\d{1,2}` of the patterns in lib/nichinoken.py (ASCII digits only). */
  predicate OneOrTwoDigits(s: string) { 1 <= |s| <= 2 && AllDigits(s) }

  lemma DigitsSlice(s: string, lo: nat, hi: nat)
    requires AllDigits(s) && lo <= hi <= |s|
    ensures AllDigits(s[lo..hi])
  {
    assert forall k :: 0 <= k < hi - lo ==> s[lo..hi][k] == s[lo + k];
  }

  function DigitValue(c: char): (v: nat)
    requires IsDigit(c)
    ensures v < 10
  {
    c as int - '0' as int
  }

  function DigitChar(v: nat): (c: char)
    requires v < 10
    ensures IsDigit(c) && DigitValue(c) == v
  {
    ('0' as int + v) as char
  }

  /** int(s) for a string of ASCII digits. */
  function DigitsValue(s: string): nat
    requires AllDigits(s)
    decreases |s|
  {
    if |s| == 0 then 0 else 10 * DigitsValue(s[..|s| - 1]) + DigitValue(s[|s| - 1])
  }

  lemma TwoDigitsValue(s: string)
    requires |s| == 2 && AllDigits(s)
    ensures DigitsValue(s) == 10 * DigitValue(s[0]) + DigitValue(s[1]) < 100
  {
    var h := s[..1];
    assert h[..0] == [] && h[0] == s[0];
    assert DigitsValue(h) == 10 * DigitsValue(h[..0]) + DigitValue(h[0]);
    assert DigitsValue(s) == 10 * DigitsValue(h) + DigitValue(s[1]);
  }

  function Pow10(w: nat): (p: nat)
    ensures p >= 1
  {
    if w == 0 then 1 else 10 * Pow10(w - 1)
  }

  /** str(n) for a non-negative int: decimal digits without leading zeros. */
  function NatToString(n: nat): (s: string)
    ensures 1 <= |s| && AllDigits(s) && DigitsValue(s) == n
    ensures |s| > 1 ==> s[0] != '0'
    decreases n
  {
    if n < 10 then [DigitChar(n)]
    else
      var s := NatToString(n / 10) + [DigitChar(n % 10)];
      assert s[..|s| - 1] == NatToString(n / 10);
      s
  }

  lemma {:induction false} NatToStringLength(n: nat, w: nat)
    requires w >= 1 && n < Pow10(w)
    ensures |NatToString(n)| <= w
    decreases w
  {
    if n >= 10 {
      assert w >= 2;
      NatToStringLength(n / 10, w - 1);
    }
  }

  function Zeros(k: nat): (z: string)
    ensures |z| == k && AllDigits(z)
    ensures forall i :: 0 <= i < k ==> z[i] == '0'
  {
    if k == 0 then [] else Zeros(k - 1) + ['0']
  }

  lemma {:induction false} LeadingZeros(k: nat, s: string)
    requires AllDigits(s)
    ensures AllDigits(Zeros(k) + s) && DigitsValue(Zeros(k) + s) == DigitsValue(s)
    decreases |s|
  {
    var t := Zeros(k) + s;
    if |s| == 0 {
      assert t == Zeros(k);
      ZerosValue(k);
    } else {
      assert t[..|t| - 1] == Zeros(k) + s[..|s| - 1];
      LeadingZeros(k, s[..|s| - 1]);
    }
  }

  lemma {:induction false} ZerosValue(k: nat)
    ensures DigitsValue(Zeros(k)) == 0
  {
    if k > 0 {
      var z := Zeros(k);
      assert z[..k - 1] == Zeros(k - 1) && z[k - 1] == '0';
      ZerosValue(k - 1);
      assert DigitsValue(z) == 10 * DigitsValue(z[..k - 1]) + DigitValue(z[k - 1]);
    }
  }

  /** "%0<w>d" % n: the decimal digits of n, zero-padded on the left to width w. */
  function PadNat(n: nat, w: nat): (s: string)
    ensures AllDigits(s) && DigitsValue(s) == n
    ensures |s| == if |NatToString(n)| < w then w else |NatToString(n)|
  {
    var d := NatToString(n);
    var z := if |d| < w then Zeros(w - |d|) else [];
    LeadingZeros(|z|, d);
    z + d
  }

  /** Python's `p in s` for strings. */
  predicate Contains(s: string, p: string)
    decreases |s|
  {
    p <= s || (|s| > 0 && Contains(s[1..], p))
  }

  lemma {:induction false} ContainsAt(s: string, p: string, i: nat)
    requires i + |p| <= |s| && s[i..i + |p|] == p
    ensures Contains(s, p)
    decreases i
  {
    if i > 0 {
      assert s[1..][i - 1..i - 1 + |p|] == s[i..i + |p|];
      ContainsAt(s[1..], p, i - 1);
    }
  }

  lemma {:induction false} ContainsWitness(s: string, p: string) returns (i: nat)
    requires Contains(s, p)
    ensures i + |p| <= |s| && s[i..i + |p|] == p
    decreases |s|
  {
    if p <= s {
      i := 0;
    } else {
      var j := ContainsWitness(s[1..], p);
      assert s[1..][j..j + |p|] == s[j + 1..j + 1 + |p|];
      i := j + 1;
    }
  }

  /** p occurs in s at position i. */
  predicate OccursAt(s: string, p: string, i: nat)
  {
    i + |p| <= |s| && s[i..i + |p|] == p
  }

  /** `p in s` holds exactly when p occurs in s at some position. */
  lemma ContainsIff(s: string, p: string)
    ensures Contains(s, p) <==> exists i: nat :: OccursAt(s, p, i)
  {
    if exists i: nat :: OccursAt(s, p, i) {
      var i: nat :| OccursAt(s, p, i);
      ContainsAt(s, p, i);
    }
    if Contains(s, p) {
      var i := ContainsWitness(s, p);
      assert OccursAt(s, p, i);
    }
  }

  /** s.replace(pat, rep): left to right, non-overlapping occurrences. */
  function ReplaceAll(s: string, pat: string, rep: string): string
    requires |pat| > 0
    decreases |s|
  {
    if |s| == 0 then []
    else if pat <= s then rep + ReplaceAll(s[|pat|..], pat, rep)
    else [s[0]] + ReplaceAll(s[1..], pat, rep)
  }

  /** Replacing one character by another rewrites every occurrence and nothing else. */
  lemma {:induction false} ReplaceCharPointwise(s: string, c: char, d: char)
    ensures |ReplaceAll(s, [c], [d])| == |s|
    ensures forall i :: 0 <= i < |s| ==> ReplaceAll(s, [c], [d])[i] == if s[i] == c then d else s[i]
    decreases |s|
  {
    if |s| > 0 {
      ReplaceCharPointwise(s[1..], c, d);
    }
  }

  /** Replacing a character splits over concatenation. */
  lemma {:induction false} ReplaceCharConcat(a: string, b: string, c: char, rep: string)
    ensures ReplaceAll(a + b, [c], rep) == ReplaceAll(a, [c], rep) + ReplaceAll(b, [c], rep)
    decreases |a|
  {
    if |a| > 0 {
      assert (a + b)[1..] == a[1..] + b;
      ReplaceCharConcat(a[1..], b, c, rep);
    } else {
      assert a + b == b;
    }
  }

  /** Text in which the character does not occur is returned unchanged. */
  lemma {:induction false} ReplaceCharAbsent(s: string, c: char, rep: string)
    requires forall i :: 0 <= i < |s| ==> s[i] != c
    ensures ReplaceAll(s, [c], rep) == s
    decreases |s|
  {
    if |s| > 0 {
      assert !([c] <= s) by { assert s[0] != c; }
      ReplaceCharAbsent(s[1..], c, rep);
      assert s == [s[0]] + s[1..];
    }
  }

  /** The OCR repair `replace("||", "11")`: each character is kept or is a '|' turned into '1',
      the length is unchanged, and no "||" survives. */
  lemma {:induction false} ReplacePipes(s: string)
    ensures |ReplaceAll(s, "||", "11")| == |s|
    ensures forall i :: 0 <= i < |s| ==>
      ReplaceAll(s, "||", "11")[i] == s[i] || (s[i] == '|' && ReplaceAll(s, "||", "11")[i] == '1')
    ensures forall i :: 0 <= i < |s| - 1 ==>
      !(ReplaceAll(s, "||", "11")[i] == '|' && ReplaceAll(s, "||", "11")[i + 1] == '|')
    ensures forall i :: 0 <= i < |s| ==> ReplaceAll(s, "||", "11")[i] == PipeRepaired(s, i)
    decreases |s|
  {
    PipesFrom(s, 0);
    assert s[0..] == s;
    if |s| > 0 {
      var r := ReplaceAll(s, "||", "11");
      if "||" <= s {
        ReplacePipes(s[2..]);
        assert r == "11" + ReplaceAll(s[2..], "||", "11");
      } else {
        ReplacePipes(s[1..]);
        var t := ReplaceAll(s[1..], "||", "11");
        assert r == [s[0]] + t;
        if |s| > 1 && s[0] == '|' {
          assert s[1] != '|';
          assert t[0] == s[1];
        }
      }
    }
  }

  /** The number of consecutive '|' immediately before position i. */
  function BarsBefore(s: string, i: nat): nat
    requires i <= |s|
  {
    if i == 0 || s[i - 1] != '|' then 0 else 1 + BarsBefore(s, i - 1)
  }

  /** What `replace("||", "11")` puts at position i: a bar becomes '1' when it is the second of
      a pair (an odd number of bars before it in its run) or the first of one (another bar
      follows it); every other character stays. */
  function PipeRepaired(s: string, i: nat): char
    requires i < |s|
  {
    if s[i] == '|' && (BarsBefore(s, i) % 2 == 1 || (i + 1 < |s| && s[i + 1] == '|')) then '1'
    else s[i]
  }

  /** The scan of replace from position k, where k is at a pair boundary of its run. */
  lemma {:induction false} PipesFrom(s: string, k: nat)
    requires k <= |s|
    requires k == |s| || s[k] != '|' || BarsBefore(s, k) % 2 == 0
    ensures |ReplaceAll(s[k..], "||", "11")| == |s| - k
    ensures forall i :: k <= i < |s| ==> ReplaceAll(s[k..], "||", "11")[i - k] == PipeRepaired(s, i)
    decreases |s| - k
  {
    if k < |s| {
      var t := s[k..];
      if "||" <= t {
        assert s[k] == '|' && s[k + 1] == '|';
        assert BarsBefore(s, k + 1) == BarsBefore(s, k) + 1;
        assert k + 2 < |s| && s[k + 2] == '|' ==> BarsBefore(s, k + 2) == BarsBefore(s, k) + 2;
        assert t[2..] == s[k + 2..];
        PipesFrom(s, k + 2);
      } else {
        assert t[1..] == s[k + 1..];
        assert PipeRepaired(s, k) == s[k];
        assert k + 1 < |s| && s[k + 1] == '|' && s[k] != '|' ==> BarsBefore(s, k + 1) == 0;
        PipesFrom(s, k + 1);
      }
    }
  }

  /** Within a maximal run of L bars starting at a, the pairs taken from the left become "11"
      and an odd bar left at the end stays. */
  lemma PipeRun(s: string, a: nat, L: nat, j: nat)
    requires a + L <= |s| && j < L
    requires a == 0 || s[a - 1] != '|'
    requires forall m :: a <= m < a + L ==> s[m] == '|'
    requires a + L == |s| || s[a + L] != '|'
    ensures PipeRepaired(s, a + j) == if j < L - L % 2 then '1' else '|'
  {
    RunBars(s, a, j);
  }

  lemma {:induction false} RunBars(s: string, a: nat, j: nat)
    requires a + j <= |s|
    requires a == 0 || s[a - 1] != '|'
    requires forall m :: a <= m < a + j ==> s[m] == '|'
    ensures BarsBefore(s, a + j) == j
    decreases j
  {
    if j > 0 {
      RunBars(s, a, j - 1);
    }
  }

  /** s.split(" ")[0]: everything before the first space character. */
  function FirstField(s: string): (r: string)
    ensures r <= s
    ensures forall i :: 0 <= i < |r| ==> r[i] != ' '
    ensures |r| == |s| || s[|r|] == ' '
    decreases |s|
  {
    if |s| == 0 || s[0] == ' ' then [] else [s[0]] + FirstField(s[1..])
  }

  /** The characters str.strip() removes (str.isspace). */
  predicate IsSpace(c: char)
  {
    ('\t' <= c <= '\r') || ('\U{1c}' <= c <= ' ') || c == '\U{85}' || c == '\U{a0}' ||
    c == '\U{1680}' || ('\U{2000}' <= c <= '\U{200a}') || c == '\U{2028}' || c == '\U{2029}' ||
    c == '\U{202f}' || c == '\U{205f}' || c == '\U{3000}'
  }

  /** str.strip(): drop white space at both ends. */
  function Strip(s: string): (r: string)
    ensures |r| <= |s|
    ensures r == [] || (!IsSpace(r[0]) && !IsSpace(r[|r| - 1]))
    decreases |s|
  {
    if |s| > 0 && IsSpace(s[0]) then Strip(s[1..])
    else if |s| > 0 && IsSpace(s[|s| - 1]) then Strip(s[..|s| - 1])
    else s
  }

  /** What str.strip() keeps is the slice s[lo..hi] of s: everything outside it is white space. */
  lemma {:induction false} StripIsSlice(s: string) returns (lo: nat, hi: nat)
    ensures lo <= hi <= |s| && Strip(s) == s[lo..hi]
    ensures forall k :: 0 <= k < lo ==> IsSpace(s[k])
    ensures forall k :: hi <= k < |s| ==> IsSpace(s[k])
    decreases |s|
  {
    if |s| > 0 && IsSpace(s[0]) {
      var l, h := StripIsSlice(s[1..]);
      lo, hi := l + 1, h + 1;
      SpaceBefore(s, s[1..], l, h);
    } else if |s| > 0 && IsSpace(s[|s| - 1]) {
      lo, hi := StripIsSlice(s[..|s| - 1]);
      SpaceAfter(s, s[..|s| - 1], lo, hi);
    } else {
      lo, hi := 0, |s|;
    }
  }

  /** A space in front of a stripped-around slice of the tail moves the slice by one. */
  lemma SpaceBefore(s: string, t: string, l: nat, h: nat)
    requires |s| > 0 && IsSpace(s[0]) && t == s[1..] && l <= h <= |t|
    requires forall k :: 0 <= k < l ==> IsSpace(t[k])
    requires forall k :: h <= k < |t| ==> IsSpace(t[k])
    ensures t[l..h] == s[l + 1..h + 1]
    ensures forall k :: 0 <= k < l + 1 ==> IsSpace(s[k])
    ensures forall k :: h + 1 <= k < |s| ==> IsSpace(s[k])
  {
    forall k | 0 < k < l + 1
      ensures IsSpace(s[k])
    {
      assert s[k] == t[k - 1];
    }
    forall k | h + 1 <= k < |s|
      ensures IsSpace(s[k])
    {
      assert s[k] == t[k - 1];
    }
  }

  /** A space behind a slice of the front part leaves the slice where it is. */
  lemma SpaceAfter(s: string, t: string, l: nat, h: nat)
    requires |s| > 0 && IsSpace(s[|s| - 1]) && t == s[..|s| - 1] && l <= h <= |t|
    requires forall k :: 0 <= k < l ==> IsSpace(t[k])
    requires forall k :: h <= k < |t| ==> IsSpace(t[k])
    ensures t[l..h] == s[l..h]
    ensures forall k :: 0 <= k < l ==> IsSpace(s[k])
    ensures forall k :: h <= k < |s| ==> IsSpace(s[k])
  {
    forall k | 0 <= k < l
      ensures IsSpace(s[k])
    {
      assert s[k] == t[k];
    }
    forall k | h <= k < |s| - 1
      ensures IsSpace(s[k])
    {
      assert s[k] == t[k];
    }
  }

  /** Python's normalisation of a slice index into a string of length n. */
  function SliceIndex(i: int, n: nat): (k: nat)
    ensures k <= n
    ensures 0 <= i <= n ==> k == i
  {
    if i < 0 then (if i + n < 0 then 0 else i + n) else if i > n then n else i
  }

  /** s[start:end] with Python's slice rules (negative indices count from the end, out-of-range
      indices are clamped, a reversed range is empty). */
  function PySlice(s: string, start: int, end: int): (r: string)
    ensures |r| <= |s|
    ensures 0 <= start <= end <= |s| ==> r == s[start..end]
    ensures 0 <= end <= start ==> r == []
  {
    var lo, hi := SliceIndex(start, |s|), SliceIndex(end, |s|);
    if lo < hi then s[lo..hi] else []
  }

  /** sep.join(parts). */
  function Join(parts: seq<string>, sep: string): string
    decreases |parts|
  {
    if |parts| == 0 then []
    else if |parts| == 1 then parts[0]
    else parts[0] + sep + Join(parts[1..], sep)
  }
}
