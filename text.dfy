/**
 * The JavaScript string operations the table extractor and the CSV export are
 * built from, over strings as sequences of characters (text in the Basic
 * Multilingual Plane, where a character is one UTF-16 code unit): `trim`,
 * `split` on one character, `join`, `indexOf`, `substring`, and
 * `split(/\s{2,}/)`.
 */
module Text {

  function Min(a: int, b: int): int { if a <= b then a else b }

  /**
   * The characters that JavaScript's `\s` class and `String.prototype.trim`
   * both treat as white space: the ECMAScript WhiteSpace code points (tab,
   * vertical tab, form feed, space, no-break space, byte order mark and the
   * other Zs space separators) and the LineTerminator code points.
   */
  predicate IsSpace(c: char) {
    c == ' ' || c == '\t' || c == '\n' || c == '\r' || c == '\U{000B}' || c == '\U{000C}'
    || c == '\U{00A0}' || c == '\U{1680}' || ('\U{2000}' <= c <= '\U{200A}')
    || c == '\U{2028}' || c == '\U{2029}' || c == '\U{202F}' || c == '\U{205F}'
    || c == '\U{3000}' || c == '\U{FEFF}'
  }

  predicate AllSpace(s: string) {
    forall k :: 0 <= k < |s| ==> IsSpace(s[k])
  }

  // ---------------------------------------------------------------------------
  // trim

  /** The first offset at or after `i` that does not hold white space (or the length). */
  function LeadFrom(s: string, i: nat): (n: nat)
    requires i <= |s|
    ensures i <= n <= |s|
    decreases |s| - i
  {
    if i < |s| && IsSpace(s[i]) then LeadFrom(s, i + 1) else i
  }

  /** The offset just past the last non-space in `s[a..j]` (or `a`). */
  function TrailTo(s: string, a: nat, j: nat): (n: nat)
    requires a <= j <= |s|
    ensures a <= n <= j
    decreases j
  {
    if j > a && IsSpace(s[j - 1]) then TrailTo(s, a, j - 1) else j
  }

  /** Number of leading white-space characters of `s`: where `Trim(s)` starts in `s`. */
  function Lead(s: string): nat {
    LeadFrom(s, 0)
  }

  /** Where `Trim(s)` ends in `s`. */
  function Trail(s: string): nat {
    TrailTo(s, Lead(s), |s|)
  }

  /** `String.prototype.trim`: drops the white space at both ends. */
  function Trim(s: string): string {
    s[Lead(s)..Trail(s)]
  }

  /**
   * `s` is white space, then `Trim(s)`, then white space, and `Trim(s)` is
   * empty or starts and ends with a non-space.
   */
  lemma TrimSpec(s: string)
    ensures Lead(s) + |Trim(s)| <= |s| && Trim(s) == s[Lead(s)..Lead(s) + |Trim(s)|]
    ensures Trim(s) == [] || (!IsSpace(Trim(s)[0]) && !IsSpace(Trim(s)[|Trim(s)| - 1]))
  {
    LeadStop(s, 0);
    TrailStop(s, Lead(s), |s|);
  }

  /** The scan for the start stops at a non-space. */
  lemma {:induction false} LeadStop(s: string, i: nat)
    requires i <= |s|
    ensures LeadFrom(s, i) < |s| ==> !IsSpace(s[LeadFrom(s, i)])
    decreases |s| - i
  {
    if i < |s| && IsSpace(s[i]) {
      LeadStop(s, i + 1);
    }
  }

  /** The scan for the end stops after a non-space. */
  lemma {:induction false} TrailStop(s: string, a: nat, j: nat)
    requires a <= j <= |s|
    ensures TrailTo(s, a, j) > a ==> !IsSpace(s[TrailTo(s, a, j) - 1])
    decreases j
  {
    if j > a && IsSpace(s[j - 1]) {
      TrailStop(s, a, j - 1);
    }
  }

  lemma {:induction false} LeadSpace(s: string, i: nat)
    requires i <= |s|
    ensures forall k :: i <= k < LeadFrom(s, i) ==> IsSpace(s[k])
    decreases |s| - i
  {
    if i < |s| && IsSpace(s[i]) {
      LeadSpace(s, i + 1);
    }
  }

  lemma {:induction false} TrailSpace(s: string, a: nat, j: nat)
    requires a <= j <= |s|
    ensures forall k :: TrailTo(s, a, j) <= k < j ==> IsSpace(s[k])
    decreases j
  {
    if j > a && IsSpace(s[j - 1]) {
      TrailSpace(s, a, j - 1);
    }
  }

  /**
   * What `trim` removes is white space on both sides, and the result is empty
   * exactly when the whole string is white space.
   */
  lemma TrimShape(s: string)
    ensures AllSpace(s[..Lead(s)]) && AllSpace(s[Lead(s) + |Trim(s)|..])
    ensures Trim(s) == [] <==> AllSpace(s)
  {
    LeadSpace(s, 0);
    TrailSpace(s, Lead(s), |s|);
    LeadStop(s, 0);
    assert Lead(s) + |Trim(s)| == Trail(s);
  }

  // ---------------------------------------------------------------------------
  // split and join on one character

  /** `s.split(sep)` for a one-character separator. */
  function Split(s: string, sep: char): (r: seq<string>)
    ensures |r| >= 1
    ensures forall k :: 0 <= k < |r| ==> sep !in r[k]
  {
    if s == [] then [[]]
    else
      var rest := Split(s[1..], sep);
      if s[0] == sep then [[]] + rest else [[s[0]] + rest[0]] + rest[1..]
  }

  /** `xs.join(sep)`. */
  function Join(xs: seq<string>, sep: char): string {
    if |xs| == 0 then []
    else if |xs| == 1 then xs[0]
    else xs[0] + [sep] + Join(xs[1..], sep)
  }

  /** Splitting a joined list gives the list back when no element holds the separator. */
  lemma {:induction false} SplitJoin(xs: seq<string>, sep: char)
    requires |xs| >= 1
    requires forall k :: 0 <= k < |xs| ==> sep !in xs[k]
    ensures Split(Join(xs, sep), sep) == xs
  {
    if |xs| == 1 {
      SplitWord(xs[0], sep);
    } else {
      SplitJoin(xs[1..], sep);
      SplitAfterWord(xs[0], Join(xs[1..], sep), sep);
      assert Join(xs, sep) == xs[0] + ([sep] + Join(xs[1..], sep));
    }
  }

  /** Joining the pieces of a split gives the string back. */
  lemma {:induction false} JoinSplit(s: string, sep: char)
    ensures Join(Split(s, sep), sep) == s
  {
    if s != [] {
      var rest := Split(s[1..], sep);
      JoinSplit(s[1..], sep);
      if s[0] == sep {
        assert Join([[]] + rest, sep) == [] + [sep] + Join(rest, sep);
      } else if |rest| == 1 {
        assert Join([[s[0]] + rest[0]] + rest[1..], sep) == [s[0]] + rest[0];
      } else {
        var xs := [[s[0]] + rest[0]] + rest[1..];
        assert xs[1..] == rest[1..];
        assert Join(rest, sep) == rest[0] + [sep] + Join(rest[1..], sep);
      }
    }
  }

  lemma {:induction false} SplitWord(w: string, sep: char)
    requires sep !in w
    ensures Split(w, sep) == [w]
  {
    if w != [] {
      SplitWord(w[1..], sep);
      assert [w[0]] + w[1..] == w;
    }
  }

  lemma {:induction false} SplitAfterWord(w: string, t: string, sep: char)
    requires sep !in w
    ensures Split(w + ([sep] + t), sep) == [w] + Split(t, sep)
  {
    if w == [] {
      assert w + ([sep] + t) == [sep] + t;
      assert ([sep] + t)[1..] == t;
    } else {
      SplitAfterWord(w[1..], t, sep);
      assert (w + ([sep] + t))[1..] == w[1..] + ([sep] + t);
      assert [w[0]] + w[1..] == w;
    }
  }

  /** A character that is neither the separator nor in any element is not in the join. */
  lemma {:induction false} JoinAvoids(xs: seq<string>, sep: char, c: char)
    requires c != sep
    requires forall k :: 0 <= k < |xs| ==> c !in xs[k]
    ensures c !in Join(xs, sep)
  {
    if |xs| > 1 {
      JoinAvoids(xs[1..], sep, c);
    }
  }

  // ---------------------------------------------------------------------------
  // indexOf and substring

  /** `t` occurs in `s` at offset `q`. */
  predicate OccursAt(s: string, t: string, q: int) {
    0 <= q && q + |t| <= |s| && s[q..q + |t|] == t
  }

  /** The first occurrence of `t` in `s` at or after `from`, or -1. */
  function IndexFrom(s: string, t: string, from: nat): (r: int)
    requires from <= |s|
    ensures r == -1 || (from <= r && OccursAt(s, t, r))
    decreases |s| - from
  {
    if from + |t| > |s| then -1
    else if s[from..from + |t|] == t then from
    else IndexFrom(s, t, from + 1)
  }

  /** The search finds an occurrence whenever there is one, and none comes before what it finds. */
  lemma {:induction false} IndexFromFirst(s: string, t: string, from: nat, q: int)
    requires from <= |s|
    ensures OccursAt(s, t, q) && from <= q ==> IndexFrom(s, t, from) != -1 && IndexFrom(s, t, from) <= q
    ensures from <= q < IndexFrom(s, t, from) ==> !OccursAt(s, t, q)
    decreases |s| - from
  {
    if from + |t| <= |s| && s[from..from + |t|] != t {
      IndexFromFirst(s, t, from + 1, q);
    }
  }

  /** `s.indexOf(t, from)`: the search starts at `from` clamped to the length of `s`. */
  function IndexOf(s: string, t: string, from: nat): int {
    IndexFrom(s, t, Min(from, |s|))
  }

  function Clamp(x: int, n: nat): (r: nat)
    ensures r <= n
  {
    if x < 0 then 0 else if x > n then n else x
  }

  /** `s.substring(a, b)`: both ends are clamped into `s` and swapped when out of order. */
  function Substring(s: string, a: int, b: int): string {
    var x, y := Clamp(a, |s|), Clamp(b, |s|);
    if x <= y then s[x..y] else s[y..x]
  }

  /** Within bounds and in order, `substring` is the slice; in every case it is a part of `s`. */
  lemma SubstringSpec(s: string, a: int, b: int)
    ensures 0 <= a <= b <= |s| ==> Substring(s, a, b) == s[a..b]
    ensures OccursAt(s, Substring(s, a, b), Min(Clamp(a, |s|), Clamp(b, |s|)))
  {
  }

  // ---------------------------------------------------------------------------
  // placement of a list of strings in a line, left to right, without overlap

  /**
   * `qs[j]` is an offset of `ts[j]` in `s`, every offset is at or after `from`,
   * and each string ends before the next one starts.
   */
  predicate Placed(s: string, ts: seq<string>, qs: seq<int>, from: int) {
    && |qs| == |ts|
    && (forall j :: 0 <= j < |ts| ==> OccursAt(s, ts[j], qs[j]) && from <= qs[j])
    && InOrder(ts, qs)
  }

  /** Each string ends before the next one starts. */
  predicate InOrder(ts: seq<string>, qs: seq<int>)
    requires |qs| == |ts|
  {
    forall i, j :: 0 <= i < j < |ts| ==> qs[i] + |ts[i]| <= qs[j]
  }

  /** The trimmed string occurs inside the untrimmed one. */
  lemma TrimOccurs(s: string, t: string, q: int)
    requires OccursAt(s, t, q)
    ensures OccursAt(s, Trim(t), q + Lead(t))
    ensures q + Lead(t) + |Trim(t)| <= q + |t|
  {
    var a, r := Lead(t), Trim(t);
    TrimSpec(t);
    SliceOfSlice(s, q, q + |t|, a, a + |r|);
  }

  lemma SliceOfSlice(s: string, a: nat, b: nat, i: nat, j: nat)
    requires a <= b <= |s| && i <= j <= b - a
    ensures s[a..b][i..j] == s[a + i..a + j]
  {
    assert forall k :: 0 <= k < j - i ==> s[a..b][i..j][k] == s[a + i..a + j][k];
  }

  /** Strings placed in a substring of `line` are placed in `line`, shifted. */
  lemma ShiftPlaced(line: string, a: nat, s: string, ts: seq<string>, qs: seq<int>, from: int)
    returns (qs': seq<int>)
    requires OccursAt(line, s, a)
    requires Placed(s, ts, qs, from)
    ensures Placed(line, ts, qs', from + a)
    ensures forall j :: 0 <= j < |qs| ==> qs'[j] == qs[j] + a
  {
    qs' := seq(|qs|, j requires 0 <= j < |qs| => qs[j] + a);
    forall j | 0 <= j < |ts| ensures OccursAt(line, ts[j], qs'[j]) && from + a <= qs'[j] {
      assert OccursAt(s, ts[j], qs[j]);
      SliceOfSlice(line, a, a + |s|, qs[j], qs[j] + |ts[j]|);
    }
    forall i, j | 0 <= i < j < |ts| ensures qs'[i] + |ts[i]| <= qs'[j] {
      assert qs[i] + |ts[i]| <= qs[j];
    }
  }

  /** A single string is kept exactly when it is not empty. */
  lemma NonEmptySingle(t: string)
    ensures NonEmpty([t]) == if t == [] then [] else [t]
  {
    assert [t][1..] == [];
  }

  /** The filter works piecewise: order and repetitions are kept. */
  lemma {:induction false} NonEmptyAppend(a: seq<string>, b: seq<string>)
    ensures NonEmpty(a + b) == NonEmpty(a) + NonEmpty(b)
    decreases |a|
  {
    if a == [] {
      assert a + b == b;
    } else {
      assert (a + b)[0] == a[0] && (a + b)[1..] == a[1..] + b;
      NonEmptyAppend(a[1..], b);
    }
  }

  /** The offsets that go with the strings `NonEmpty` keeps. */
  function NonEmptyOffsets(ts: seq<string>, qs: seq<int>): (r: seq<int>)
    requires |qs| == |ts|
    ensures |r| == |NonEmpty(ts)|
    decreases |ts|
  {
    if ts == [] then []
    else if ts[0] == [] then NonEmptyOffsets(ts[1..], qs[1..])
    else [qs[0]] + NonEmptyOffsets(ts[1..], qs[1..])
  }

  /** Dropping the empty strings keeps the rest placed. */
  lemma {:induction false} NonEmptyPlaced(s: string, ts: seq<string>, qs: seq<int>, from: int)
    requires Placed(s, ts, qs, from)
    ensures Placed(s, NonEmpty(ts), NonEmptyOffsets(ts, qs), from)
    decreases |ts|
  {
    if ts != [] {
      PlacedTail(s, ts, qs, from);
      NonEmptyPlaced(s, ts[1..], qs[1..], qs[0] + |ts[0]|);
      var rest := NonEmptyOffsets(ts[1..], qs[1..]);
      if ts[0] == [] {
        PlacedWeaken(s, NonEmpty(ts[1..]), rest, qs[0], from);
      } else {
        PlacedCons(s, ts[0], qs[0], NonEmpty(ts[1..]), rest, from);
      }
    }
  }

  /** A non-empty string is kept, with its offset. */
  lemma {:induction false} NonEmptyKeeps(ts: seq<string>, qs: seq<int>, j: nat) returns (m: nat)
    requires |qs| == |ts| && j < |ts| && ts[j] != []
    ensures m < |NonEmpty(ts)| && NonEmptyOffsets(ts, qs)[m] == qs[j] && NonEmpty(ts)[m] == ts[j]
    decreases |ts|
  {
    if j == 0 {
      m := 0;
    } else {
      assert ts[1..][j - 1] == ts[j] && qs[1..][j - 1] == qs[j];
      var m' := NonEmptyKeeps(ts[1..], qs[1..], j - 1);
      m := if ts[0] == [] then m' else m' + 1;
    }
  }

  lemma PlacedTail(s: string, ts: seq<string>, qs: seq<int>, from: int)
    requires Placed(s, ts, qs, from) && ts != []
    ensures Placed(s, ts[1..], qs[1..], qs[0] + |ts[0]|)
  {
    forall i, j | 0 <= i < j < |ts| - 1 ensures qs[1..][i] + |ts[1..][i]| <= qs[1..][j] {
      assert qs[i + 1] + |ts[i + 1]| <= qs[j + 1];
    }
    forall j | 0 <= j < |ts| - 1 ensures qs[0] + |ts[0]| <= qs[1..][j] {
      assert qs[0] + |ts[0]| <= qs[j + 1];
    }
  }

  lemma PlacedWeaken(s: string, ts: seq<string>, qs: seq<int>, from: int, from': int)
    requires Placed(s, ts, qs, from) && from' <= from
    ensures Placed(s, ts, qs, from')
  {
  }

  lemma PlacedCons(s: string, t: string, q: int, ts: seq<string>, qs: seq<int>, from: int)
    requires OccursAt(s, t, q) && from <= q
    requires Placed(s, ts, qs, q + |t|)
    ensures Placed(s, [t] + ts, [q] + qs, from)
  {
    var ts', qs' := [t] + ts, [q] + qs;
    forall j | 0 < j < |ts'| ensures OccursAt(s, ts'[j], qs'[j]) && from <= qs'[j] {
      assert ts'[j] == ts[j - 1] && qs'[j] == qs[j - 1];
    }
    forall i, j | 0 <= i < j < |ts'| ensures qs'[i] + |ts'[i]| <= qs'[j] {
      assert qs'[j] == qs[j - 1];
      if i > 0 {
        assert ts'[i] == ts[i - 1] && qs'[i] == qs[i - 1];
      }
    }
  }

  // ---------------------------------------------------------------------------
  // split(/\s{2,}/), trim each piece, drop the empty ones

  /** A run of at least two white-space characters starts at `i`. */
  predicate GapAt(s: string, i: int) {
    0 <= i && i + 1 < |s| && IsSpace(s[i]) && IsSpace(s[i + 1])
  }

  /** `s` holds no run of two or more white-space characters. */
  predicate NoGap(s: string) {
    forall i :: 0 <= i < |s| ==> !GapAt(s, i)
  }

  /** End of the maximal white-space run that starts at `i`. */
  function RunEnd(s: string, i: nat): (e: nat)
    requires i <= |s|
    ensures i <= e <= |s|
    ensures forall k :: i <= k < e ==> IsSpace(s[k])
    ensures e < |s| ==> !IsSpace(s[e])
    decreases |s| - i
  {
    if i < |s| && IsSpace(s[i]) then RunEnd(s, i + 1) else i
  }

  /**
   * The scan behind `s.split(/\s{2,}/)`: the current piece started at `ps`,
   * the regular expression is tried at `i`; a match takes the whole run
   * (the quantifier is greedy) and the next piece starts after it.
   */
  function SplitGapsFrom(s: string, ps: nat, i: nat): (r: seq<string>)
    requires ps <= i <= |s|
    ensures |r| >= 1
    decreases |s| - i
  {
    if i == |s| then [s[ps..]]
    else if GapAt(s, i) then [s[ps..i]] + SplitGapsFrom(s, RunEnd(s, i), RunEnd(s, i))
    else SplitGapsFrom(s, ps, i + 1)
  }

  /** `s.split(/\s{2,}/)`. */
  function SplitGaps(s: string): seq<string> {
    SplitGapsFrom(s, 0, 0)
  }

  function TrimAll(ts: seq<string>): seq<string> {
    seq(|ts|, k requires 0 <= k < |ts| => Trim(ts[k]))
  }

  /** `ts.filter(t => t)`: the non-empty strings, in order. */
  function NonEmpty(ts: seq<string>): (r: seq<string>)
    ensures |r| <= |ts|
    ensures forall k :: 0 <= k < |r| ==> r[k] != [] && r[k] in ts
    ensures forall t :: t in ts && t != [] ==> t in r
  {
    if ts == [] then []
    else if ts[0] == [] then NonEmpty(ts[1..])
    else [ts[0]] + NonEmpty(ts[1..])
  }

  /**
   * `s[a..b]` is a separator the scan matches: two or more white-space
   * characters, with no white space just before or just after them.
   */
  predicate Separator(s: string, a: int, b: int) {
    && 0 <= a && a + 2 <= b <= |s|
    && (forall k :: a <= k < b ==> IsSpace(s[k]))
    && (a == 0 || !IsSpace(s[a - 1]))
    && (b == |s| || !IsSpace(s[b]))
  }

  /** Where the pieces of the scan start in `s`: `ps`, then one offset after each separator. */
  function GapOffsets(s: string, ps: nat, i: nat): (qs: seq<int>)
    requires ps <= i <= |s|
    ensures |qs| == |SplitGapsFrom(s, ps, i)| && qs[0] == ps
    decreases |s| - i
  {
    if i == |s| then [ps]
    else if GapAt(s, i) then [ps] + GapOffsets(s, RunEnd(s, i), RunEnd(s, i))
    else GapOffsets(s, ps, i + 1)
  }

  /**
   * The pieces of the scan are placed in `s` in order at their offsets, and
   * none holds a run of two or more white-space characters.
   */
  lemma {:induction false} SplitGapsPlaced(s: string, ps: nat, i: nat)
    requires ps <= i <= |s|
    requires forall k :: ps <= k < i ==> !GapAt(s, k)
    ensures Placed(s, SplitGapsFrom(s, ps, i), GapOffsets(s, ps, i), ps)
    ensures forall j :: 0 <= j < |SplitGapsFrom(s, ps, i)| ==> NoGap(SplitGapsFrom(s, ps, i)[j])
    decreases |s| - i
  {
    if i == |s| {
      NoGapSlice(s, ps, i);
    } else if GapAt(s, i) {
      var e := RunEnd(s, i);
      var piece, rest, offsets := s[ps..i], SplitGapsFrom(s, e, e), GapOffsets(s, e, e);
      SplitGapsPlaced(s, e, e);
      NoGapSlice(s, ps, i);
      assert SplitGapsFrom(s, ps, i) == [piece] + rest;
      assert GapOffsets(s, ps, i) == [ps] + offsets;
      PlacedWeaken(s, rest, offsets, e, ps + |piece|);
      PlacedCons(s, piece, ps, rest, offsets, ps);
      forall j | 0 < j < |rest| + 1 ensures NoGap(([piece] + rest)[j]) {
        assert ([piece] + rest)[j] == rest[j - 1];
      }
    } else {
      SplitGapsPlaced(s, ps, i + 1);
    }
  }

  /**
   * The pieces leave nothing out: the last one ends at the end of `s`, and
   * consecutive pieces are parted by exactly one separator.
   */
  lemma {:induction false} SplitGapsSeparated(s: string, ps: nat, i: nat)
    requires ps <= i <= |s|
    requires forall k :: ps <= k < i ==> !GapAt(s, k)
    requires 0 < ps < |s| ==> !IsSpace(s[ps])
    ensures var qs, r := GapOffsets(s, ps, i), SplitGapsFrom(s, ps, i);
      && qs[|qs| - 1] + |r[|qs| - 1]| == |s|
      && forall j :: 0 <= j < |qs| - 1 ==> Separator(s, qs[j] + |r[j]|, qs[j + 1])
    decreases |s| - i
  {
    if i < |s| && GapAt(s, i) {
      var e := RunEnd(s, i);
      SplitGapsSeparated(s, e, e);
      GapSeparator(s, ps, i);
      SeparatedCons(s, ps, i);
    } else if i < |s| {
      SplitGapsSeparated(s, ps, i + 1);
    }
  }

  /** The gap step of the scan keeps the pieces separated. */
  lemma SeparatedCons(s: string, ps: nat, i: nat)
    requires ps <= i < |s| && GapAt(s, i)
    requires Separator(s, i, RunEnd(s, i))
    requires var e := RunEnd(s, i);
      var rest, r0 := GapOffsets(s, e, e), SplitGapsFrom(s, e, e);
      && rest[|rest| - 1] + |r0[|rest| - 1]| == |s|
      && forall j :: 0 <= j < |rest| - 1 ==> Separator(s, rest[j] + |r0[j]|, rest[j + 1])
    ensures var qs, r := GapOffsets(s, ps, i), SplitGapsFrom(s, ps, i);
      && qs[|qs| - 1] + |r[|qs| - 1]| == |s|
      && forall j :: 0 <= j < |qs| - 1 ==> Separator(s, qs[j] + |r[j]|, qs[j + 1])
  {
    var e := RunEnd(s, i);
    var rest, r0 := GapOffsets(s, e, e), SplitGapsFrom(s, e, e);
    var qs, r := GapOffsets(s, ps, i), SplitGapsFrom(s, ps, i);
    assert qs == [ps] + rest && r == [s[ps..i]] + r0;
    forall j | 0 < j < |qs| - 1 ensures Separator(s, qs[j] + |r[j]|, qs[j + 1]) {
      assert qs[j] == rest[j - 1] && r[j] == r0[j - 1] && qs[j + 1] == rest[j];
    }
  }

  /** Every non-space character from `ps` on lies inside a piece. */
  lemma {:induction false} SplitGapsCovers(s: string, ps: nat, i: nat, k: nat) returns (j: nat)
    requires ps <= i <= |s| && ps <= k < |s| && !IsSpace(s[k])
    ensures var qs, r := GapOffsets(s, ps, i), SplitGapsFrom(s, ps, i);
      j < |qs| && qs[j] <= k < qs[j] + |r[j]|
    decreases |s| - i
  {
    if i == |s| {
      j := 0;
    } else if GapAt(s, i) {
      var e := RunEnd(s, i);
      assert GapOffsets(s, ps, i) == [ps] + GapOffsets(s, e, e);
      assert SplitGapsFrom(s, ps, i) == [s[ps..i]] + SplitGapsFrom(s, e, e);
      if k < i {
        j := 0;
      } else {
        var m := SplitGapsCovers(s, e, e, k);
        j := m + 1;
      }
    } else {
      j := SplitGapsCovers(s, ps, i + 1, k);
    }
  }

  /** The run the scan matches at a gap is a separator. */
  lemma GapSeparator(s: string, ps: nat, i: nat)
    requires ps <= i < |s| && GapAt(s, i)
    requires forall k :: ps <= k < i ==> !GapAt(s, k)
    requires 0 < ps < |s| ==> !IsSpace(s[ps])
    ensures Separator(s, i, RunEnd(s, i))
  {
    var e := RunEnd(s, i);
    assert IsSpace(s[i + 1]);
    if i > 0 {
      if i > ps {
        assert !GapAt(s, i - 1);
      }
    }
  }

  lemma NoGapSlice(s: string, a: nat, b: nat)
    requires a <= b <= |s|
    requires forall k :: a <= k < b - 1 ==> !GapAt(s, k)
    ensures NoGap(s[a..b])
  {
    forall i | 0 <= i < b - a ensures !GapAt(s[a..b], i) {
      if i + 1 < b - a {
        assert !GapAt(s, a + i);
      }
    }
  }

  /** Trimming each placed string keeps them placed. */
  lemma TrimAllPlaced(s: string, ts: seq<string>, qs: seq<int>, from: int) returns (qs': seq<int>)
    requires Placed(s, ts, qs, from)
    ensures Placed(s, TrimAll(ts), qs', from)
    ensures forall j :: 0 <= j < |qs| ==> qs'[j] == qs[j] + Lead(ts[j])
  {
    var tr := TrimAll(ts);
    qs' := seq(|qs|, j requires 0 <= j < |qs| => qs[j] + Lead(ts[j]));
    forall j | 0 <= j < |ts|
      ensures OccursAt(s, tr[j], qs'[j]) && from <= qs'[j]
      ensures qs'[j] + |tr[j]| <= qs[j] + |ts[j]|
    {
      TrimOccurs(s, ts[j], qs[j]);
    }
    forall i, j | 0 <= i < j < |ts| ensures qs'[i] + |tr[i]| <= qs'[j] {
      assert qs[i] + |ts[i]| <= qs[j];
    }
  }

  /** A slice of a string without gaps has no gaps. */
  lemma NoGapInside(t: string, a: nat, b: nat)
    requires a <= b <= |t| && NoGap(t)
    ensures NoGap(t[a..b])
  {
    forall i | 0 <= i < b - a ensures !GapAt(t[a..b], i) {
      assert !GapAt(t, a + i);
    }
  }

  /** Trimming a string without a gap leaves one without a gap, with non-space ends. */
  lemma TrimNoGap(t: string)
    requires NoGap(t)
    ensures Trim(t) == [] || (!IsSpace(Trim(t)[0]) && !IsSpace(Trim(t)[|Trim(t)| - 1]))
    ensures NoGap(Trim(t))
  {
    TrimSpec(t);
    NoGapInside(t, Lead(t), Lead(t) + |Trim(t)|);
  }

  /** A non-space character of a placed string is kept by trimming it. */
  lemma TrimKeeps(s: string, t: string, q: nat, k: nat)
    requires OccursAt(s, t, q) && q <= k < q + |t| && !IsSpace(s[k])
    ensures q + Lead(t) <= k < q + Lead(t) + |Trim(t)|
  {
    TrimShape(t);
    assert t[k - q] == s[k];
  }
}
