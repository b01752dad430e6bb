/**
 * The OCR utilities: the binarisation pass over an RGBA pixel buffer, the
 * reconstruction of a table from the recognised text using only white-space
 * geometry, and the placeholder table that stands in for any failure.
 */
module OcrUtils {
  import opened Wrappers
  import opened Text
  import opened TableData

  // ===========================================================================
  // Binarisation of the RGBA buffer of a canvas

  newtype byte = x: int | 0 <= x < 256

  /**
   * The value every colour channel of a pixel gets: white when the average of
   * R, G and B exceeds 128, black otherwise. The average is a real quotient;
   * since the sum is an integer, this is the integer test R + G + B > 384.
   */
  function Threshold(r: byte, g: byte, b: byte): (v: byte)
    ensures v == 255 <==> r as int + g as int + b as int > 384
    ensures v == 0 <==> r as int + g as int + b as int <= 384
  {
    var avg := (r as real + g as real + b as real) / 3.0;
    if avg > 128.0 then 255 else 0
  }

  /** The byte at offset `k` after the pass: a colour channel takes its pixel's threshold, alpha stays. */
  function BinarizedAt(s: seq<byte>, k: nat): byte
    requires |s| % 4 == 0 && k < |s|
  {
    var p := k - k % 4;
    if k % 4 == 3 then s[k] else Threshold(s[p], s[p + 1], s[p + 2])
  }

  /** The whole buffer after the pass. */
  function Binarized(s: seq<byte>): seq<byte>
    requires |s| % 4 == 0
  {
    seq(|s|, k requires 0 <= k < |s| => BinarizedAt(s, k))
  }

  /** The loop of `preprocessImage` over the canvas bytes, four bytes per pixel. */
  method Binarize(data: array<byte>)
    requires data.Length % 4 == 0
    modifies data
    ensures data[..] == Binarized(old(data[..]))
  {
    ghost var s := data[..];
    ghost var n := 0;
    var i := 0;
    while i < data.Length
      invariant 0 <= i <= data.Length && i == 4 * n
      invariant forall k :: 0 <= k < i ==> data[k] == BinarizedAt(s, k)
      invariant forall k :: i <= k < data.Length ==> data[k] == s[k]
    {
      PixelAt(s, i, n);
      var newVal := Threshold(data[i], data[i + 1], data[i + 2]);
      assert newVal == BinarizedAt(s, i) == BinarizedAt(s, i + 1) == BinarizedAt(s, i + 2);
      data[i] := newVal;
      data[i + 1] := newVal;
      data[i + 2] := newVal;
      forall k | 0 <= k < i + 4 ensures data[k] == BinarizedAt(s, k) {
        if k == i + 3 {
        } else if k >= i {
          assert data[k] == newVal;
        }
      }
      i, n := i + 4, n + 1;
    }
    BinarizedEach(s, data[..]);
  }

  lemma BinarizedEach(s: seq<byte>, t: seq<byte>)
    requires |s| % 4 == 0 && |t| == |s|
    requires forall k :: 0 <= k < |s| ==> t[k] == BinarizedAt(s, k)
    ensures t == Binarized(s)
  {
  }

  /** The four bytes of pixel `n`, at offset `i` = 4n, after the pass. */
  lemma PixelAt(s: seq<byte>, i: nat, n: nat)
    requires |s| % 4 == 0 && i == 4 * n && i < |s|
    ensures i + 3 < |s|
    ensures BinarizedAt(s, i) == Threshold(s[i], s[i + 1], s[i + 2])
    ensures BinarizedAt(s, i + 1) == Threshold(s[i], s[i + 1], s[i + 2])
    ensures BinarizedAt(s, i + 2) == Threshold(s[i], s[i + 1], s[i + 2])
    ensures BinarizedAt(s, i + 3) == s[i + 3]
  {
  }

  /**
   * Per pixel: R, G and B all become 255 when R + G + B > 384 and 0 otherwise;
   * alpha and the buffer length do not change.
   */
  lemma BinarizedPixel(s: seq<byte>, p: nat)
    requires |s| % 4 == 0 && p % 4 == 0 && p < |s|
    ensures p + 3 < |s| && |Binarized(s)| == |s|
    ensures Binarized(s)[p] == Binarized(s)[p + 1] == Binarized(s)[p + 2]
    ensures Binarized(s)[p] == (if s[p] as int + s[p + 1] as int + s[p + 2] as int > 384 then 255 else 0)
    ensures Binarized(s)[p + 3] == s[p + 3]
  {
  }

  /** A second pass changes nothing. */
  lemma BinarizeIdempotent(s: seq<byte>)
    requires |s| % 4 == 0
    ensures Binarized(Binarized(s)) == Binarized(s)
  {
    var b := Binarized(s);
    forall k | 0 <= k < |s| ensures Binarized(b)[k] == b[k] {
      var p := k - k % 4;
      BinarizedPixel(s, p);
    }
  }

  // ===========================================================================
  // Header tokens: split at runs of two or more white-space characters

  /** `line.split(/\s{2,}/).map(h => h.trim()).filter(h => h)`. */
  function GapTokens(line: string): seq<string> {
    NonEmpty(TrimAll(SplitGaps(line)))
  }

  /**
   * The tokens occur in the line from left to right without overlapping, and
   * each is non-empty, starts and ends with a non-space and holds no run of
   * two or more white-space characters. Nothing is lost: every non-space
   * character of the line lies inside a token.
   */
  lemma GapTokensPlaced(line: string) returns (qs: seq<int>)
    ensures Placed(line, GapTokens(line), qs, 0)
    ensures forall j :: 0 <= j < |GapTokens(line)| ==>
      GapTokens(line)[j] != [] && !IsSpace(GapTokens(line)[j][0])
      && !IsSpace(GapTokens(line)[j][|GapTokens(line)[j]| - 1]) && NoGap(GapTokens(line)[j])
    ensures forall k :: 0 <= k < |line| && !IsSpace(line[k]) ==>
      exists j :: 0 <= j < |qs| && qs[j] <= k < qs[j] + |GapTokens(line)[j]|
  {
    var pieces := SplitGaps(line);
    var q0 := GapOffsets(line, 0, 0);
    SplitGapsPlaced(line, 0, 0);
    var q1 := TrimAllPlaced(line, pieces, q0, 0);
    NonEmptyPlaced(line, TrimAll(pieces), q1, 0);
    qs := NonEmptyOffsets(TrimAll(pieces), q1);
    var tokens := GapTokens(line);
    forall j | 0 <= j < |tokens|
      ensures tokens[j] != [] && !IsSpace(tokens[j][0]) && !IsSpace(tokens[j][|tokens[j]| - 1])
      ensures NoGap(tokens[j])
    {
      var m :| 0 <= m < |pieces| && TrimAll(pieces)[m] == tokens[j];
      TrimNoGap(pieces[m]);
    }
    forall k | 0 <= k < |line| && !IsSpace(line[k])
      ensures exists j :: 0 <= j < |qs| && qs[j] <= k < qs[j] + |tokens[j]|
    {
      var m := SplitGapsCovers(line, 0, 0, k);
      TrimKeeps(line, pieces[m], q0[m], k);
      var n := NonEmptyKeeps(TrimAll(pieces), q1, m);
      assert qs[n] <= k < qs[n] + |tokens[n]|;
    }
  }

  /**
   * What the split itself gives: pieces that start at 0, end at the end of
   * the line and are parted by separators, maximal runs of two or more
   * white-space characters.
   */
  lemma GapPieces(line: string)
    ensures var qs, ps := GapOffsets(line, 0, 0), SplitGaps(line);
      && Placed(line, ps, qs, 0) && qs[0] == 0
      && qs[|qs| - 1] + |ps[|qs| - 1]| == |line|
      && forall j :: 0 <= j < |qs| - 1 ==> Separator(line, qs[j] + |ps[j]|, qs[j + 1])
  {
    SplitGapsPlaced(line, 0, 0);
    SplitGapsSeparated(line, 0, 0);
  }

  // ===========================================================================
  // Fallback headers: equal slices of the trimmed header line

  /** How many times `i += w` from 0 stays below `len`: the iterations of the slicing loop. */
  function SliceCount(len: nat, w: nat): nat
    requires w > 0
    decreases len
  {
    if len == 0 then 0 else if len <= w then 1 else 1 + SliceCount(len - w, w)
  }

  /**
   * The pieces `slice(i), slice(i + w), ...` for the offsets from `i` below
   * `len`, stepping by `w`: the shape of the slicing loop, whatever it cuts.
   */
  function Stepped(slice: nat -> string, len: nat, w: nat, i: nat): seq<string>
    requires w > 0
    decreases len - i
  {
    if i >= len then [] else [slice(i)] + Stepped(slice, len, w, i + w)
  }

  /** The loop takes one piece per offset it visits. */
  lemma {:induction false} SteppedLength(slice: nat -> string, len: nat, w: nat, i: nat)
    requires w > 0 && i <= len
    ensures |Stepped(slice, len, w, i)| == SliceCount(len - i, w)
    decreases len - i
  {
    if i < len && i + w < len {
      SteppedLength(slice, len, w, i + w);
      SliceCountStep(len - i, len - (i + w), w);
    }
  }

  /** Piece k is cut at the k-th offset the loop visits, `i + k * w`, which is below `len`. */
  lemma {:induction false} SteppedAt(slice: nat -> string, len: nat, w: nat, i: nat, k: nat) returns (a: nat)
    requires w > 0 && k < |Stepped(slice, len, w, i)|
    ensures a == i + k * w && a < len && Stepped(slice, len, w, i)[k] == slice(a)
    decreases k
  {
    if k == 0 {
      a := i;
    } else {
      a := SteppedAt(slice, len, w, i + w, k - 1);
      assert i + w + (k - 1) * w == i + k * w;
    }
  }

  /**
   * The slices from offset `i` on: `headerText.substring(i, min(i + w, L)).trim()`,
   * then the same from `i + w`, until `i` reaches the length L.
   */
  function FallbackFrom(headerText: string, w: nat, i: nat): seq<string>
    requires w > 0
  {
    Stepped((k: nat) => FallbackSlice(headerText, w, k), |headerText|, w, i)
  }

  /** One slice of the fallback: `headerText.substring(i, min(i + w, L)).trim()`. */
  function FallbackSlice(headerText: string, w: nat, i: nat): string {
    Trim(Substring(headerText, i, Min(i + w, |headerText|)))
  }

  /**
   * Slice k from offset `i` is the trimmed part of the line from `i + k * w`,
   * which is inside the line, up to `i + (k + 1) * w` or the end of the line.
   */
  lemma FallbackAt(headerText: string, w: nat, i: nat, k: nat)
    requires w > 0 && k < |FallbackFrom(headerText, w, i)|
    ensures i + k * w < |headerText|
    ensures FallbackFrom(headerText, w, i)[k]
      == Trim(headerText[i + k * w..Min(i + k * w + w, |headerText|)])
  {
    var slice := (n: nat) => FallbackSlice(headerText, w, n);
    assert FallbackFrom(headerText, w, i) == Stepped(slice, |headerText|, w, i);
    var a := SteppedAt(slice, |headerText|, w, i, k);
    assert FallbackFrom(headerText, w, i)[k] == FallbackSlice(headerText, w, a);
    SubstringSpec(headerText, a, Min(a + w, |headerText|));
  }

  /** The headers of the equal-parts fallback, for a slice width `w`. */
  function FallbackHeaders(headerText: string, w: nat): seq<string>
    requires w > 0
  {
    FallbackFrom(headerText, w, 0)
  }

  /** There is one slice per turn of the loop. */
  lemma FallbackLength(headerText: string, w: nat, i: nat)
    requires w > 0 && i <= |headerText|
    ensures |FallbackFrom(headerText, w, i)| == SliceCount(|headerText| - i, w)
  {
    SteppedLength((k: nat) => FallbackSlice(headerText, w, k), |headerText|, w, i);
  }

  lemma SliceCountStep(len: nat, rest: nat, w: nat)
    requires 0 < w < len && rest == len - w
    ensures SliceCount(len, w) == 1 + SliceCount(rest, w)
  {
  }

  /** The loop makes ceil(L / w) slices: the last one starts below L and ends at or past it. */
  lemma {:induction false} SliceCountCovers(len: nat, w: nat)
    requires w > 0 && len > 0
    ensures SliceCount(len, w) >= 1
    ensures (SliceCount(len, w) - 1) * w < len <= SliceCount(len, w) * w
    decreases len
  {
    if len > w {
      SliceCountCovers(len - w, w);
      var n := SliceCount(len - w, w);
      assert (n + 1) * w == n * w + w;
    }
  }

  /**
   * With w = floor(L / 3) and L >= 3 the fallback yields 3 headers when 3
   * divides L, 5 when L is 5, and 4 otherwise: the last slice does not absorb
   * the remainder.
   */
  lemma FallbackCount(len: nat)
    requires len >= 3
    ensures SliceCount(len, len / 3) == if len % 3 == 0 then 3 else if len == 5 then 5 else 4
  {
    var w, r := len / 3, len % 3;
    assert len == 3 * w + r;
    assert SliceCount(len, w) == 1 + SliceCount(2 * w + r, w);
    assert SliceCount(2 * w + r, w) == 1 + SliceCount(w + r, w);
    if r == 0 {
      assert SliceCount(w, w) == 1;
    } else {
      assert SliceCount(w + r, w) == 1 + SliceCount(r, w);
      if r > w {
        assert SliceCount(r, w) == 1 + SliceCount(1, w);
      }
    }
  }

  /**
   * The slices from offset `i` occur in the trimmed header line at or after
   * `i`, left to right, without overlap; slice k lies within its window
   * `[i + k * w, i + (k + 1) * w)`.
   */
  lemma {:induction false} FallbackPlaced(headerText: string, w: nat, i: nat) returns (qs: seq<int>)
    requires w > 0
    ensures Placed(headerText, FallbackFrom(headerText, w, i), qs, i)
    ensures Windowed(FallbackFrom(headerText, w, i), qs, i, w)
    decreases |headerText| - i
  {
    if i >= |headerText| {
      qs := [];
    } else {
      var head := FallbackSlice(headerText, w, i);
      var q := SlicePlaced(headerText, w, i);
      var tail := FallbackFrom(headerText, w, i + w);
      var rest := FallbackPlaced(headerText, w, i + w);
      PlacedWeaken(headerText, tail, rest, i + w, q + |head|);
      PlacedCons(headerText, head, q, tail, rest, i);
      FallbackStep(headerText, w, i);
      qs := [q] + rest;
      WindowsCons(i, w, q, head, tail, rest);
    }
  }

  /** String k, placed at `qs[k]`, lies within the window `[i + k * w, i + (k + 1) * w)`. */
  predicate Windowed(ts: seq<string>, qs: seq<int>, i: int, w: int) {
    && |qs| == |ts|
    && forall k :: 0 <= k < |qs| ==> i + k * w <= qs[k] && qs[k] + |ts[k]| <= i + (k + 1) * w
  }

  /** A slice in the first window, followed by slices in the windows from `i + w`. */
  lemma WindowsCons(i: nat, w: nat, q: int, head: string, tail: seq<string>, rest: seq<int>)
    requires i <= q && q + |head| <= i + w && Windowed(tail, rest, i + w, w)
    ensures Windowed([head] + tail, [q] + rest, i, w)
  {
    forall k | 0 < k < |rest| + 1
      ensures i + k * w <= ([q] + rest)[k] && ([q] + rest)[k] + |([head] + tail)[k]| <= i + (k + 1) * w
    {
      assert i + w + (k - 1) * w == i + k * w && i + w + k * w == i + (k + 1) * w;
      assert ([q] + rest)[k] == rest[k - 1] && ([head] + tail)[k] == tail[k - 1];
    }
  }

  /** One slice, trimmed, lies between its offset `i` and `i + w`. */
  lemma SlicePlaced(headerText: string, w: nat, i: nat) returns (q: int)
    requires i < |headerText|
    ensures var head := FallbackSlice(headerText, w, i);
      OccursAt(headerText, head, q) && i <= q && q + |head| <= i + w
  {
    var raw := Substring(headerText, i, Min(i + w, |headerText|));
    assert raw == headerText[i..Min(i + w, |headerText|)];
    TrimOccurs(headerText, raw, i);
    q := i + Lead(raw);
  }

  // ===========================================================================
  // The header set

  /**
   * The headers of lines 64-80: the tokens of the header line when there are
   * at least two; otherwise the slices of the trimmed header line of width
   * floor(L / 3). `None` when that width is 0 and the line is not empty: the
   * slicing loop then never advances and never ends.
   */
  function HeaderSet(headerLine: string): Option<seq<string>> {
    var tokens := GapTokens(headerLine);
    if |tokens| >= 2 then Some(tokens)
    else
      var headerText := Trim(headerLine);
      var w := |headerText| / 3;
      if w > 0 then Some(FallbackHeaders(headerText, w))
      else if |headerText| == 0 then Some([])
      else None
  }

  /**
   * For a non-blank header line: the loop diverges exactly when attempt 1
   * finds fewer than 2 tokens and the trimmed line has 1 or 2 characters;
   * otherwise there are at least 2 headers (the fallback gives 3 to 5).
   */
  lemma HeaderSetSize(headerLine: string)
    requires Trim(headerLine) != []
    ensures HeaderSet(headerLine).None? <==> |GapTokens(headerLine)| < 2 && |Trim(headerLine)| < 3
    ensures HeaderSet(headerLine).Some? ==> |HeaderSet(headerLine).value| >= 2
    ensures |GapTokens(headerLine)| < 2 && |Trim(headerLine)| >= 3 ==>
      3 <= |HeaderSet(headerLine).value| <= 5
  {
    var headerText := Trim(headerLine);
    if |GapTokens(headerLine)| < 2 && |headerText| >= 3 {
      var w := |headerText| / 3;
      FallbackLength(headerText, w, 0);
      FallbackCount(|headerText|);
      assert HeaderSet(headerLine).value == FallbackHeaders(headerText, w);
    }
  }

  /** The headers occur in the (untrimmed) header line, left to right, without overlap. */
  lemma HeaderSetPlaced(headerLine: string) returns (qs: seq<int>)
    requires HeaderSet(headerLine).Some?
    ensures Placed(headerLine, HeaderSet(headerLine).value, qs, 0)
  {
    var tokens := GapTokens(headerLine);
    if |tokens| >= 2 {
      qs := GapTokensPlaced(headerLine);
    } else {
      var headerText := Trim(headerLine);
      var w := |headerText| / 3;
      if w > 0 {
        var q := FallbackPlaced(headerText, w, 0);
        qs := ShiftPlaced(headerLine, Lead(headerLine), headerText, FallbackHeaders(headerText, w), q, 0);
        PlacedWeaken(headerLine, FallbackHeaders(headerText, w), qs, Lead(headerLine), 0);
      } else {
        qs := [];
      }
    }
  }

  // ===========================================================================
  // Header offsets: a left-to-right cursor search in the header line

  /**
   * Lines 94-103: each header is looked up with `indexOf` from the cursor; a
   * hit records its offset and moves the cursor past it, a miss records
   * nothing. The offsets never decrease.
   */
  function Locate(line: string, hs: seq<string>, cursor: nat): (ps: seq<nat>)
    ensures |ps| <= |hs|
    decreases |hs|
  {
    if hs == [] then []
    else
      var p := IndexOf(line, hs[0], cursor);
      if p != -1 then [p] + Locate(line, hs[1..], p + |hs[0]|)
      else Locate(line, hs[1..], cursor)
  }

  /** Whatever is found, the offsets stay inside the line and never decrease. */
  lemma {:induction false} LocateNonDecreasing(line: string, hs: seq<string>, cursor: nat)
    ensures forall k :: 0 <= k < |Locate(line, hs, cursor)| ==>
      Min(cursor, |line|) <= Locate(line, hs, cursor)[k] <= |line|
    ensures forall i, j :: 0 <= i < j < |Locate(line, hs, cursor)| ==>
      Locate(line, hs, cursor)[i] <= Locate(line, hs, cursor)[j]
    decreases |hs|
  {
    if hs != [] {
      var p := IndexOf(line, hs[0], cursor);
      if p != -1 {
        LocateNonDecreasing(line, hs[1..], p + |hs[0]|);
        var rest := Locate(line, hs[1..], p + |hs[0]|);
        assert Locate(line, hs, cursor) == [p] + rest;
      } else {
        LocateNonDecreasing(line, hs[1..], cursor);
      }
    }
  }

  /**
   * When the headers do occur in order from the cursor, the search finds every
   * one: one offset per header, each at or before the given occurrence, and
   * the offsets are again an in-order placement.
   */
  lemma {:induction false} LocateFindsAll(line: string, hs: seq<string>, qs: seq<int>, cursor: nat)
    requires Placed(line, hs, qs, cursor)
    ensures |Locate(line, hs, cursor)| == |hs|
    ensures Placed(line, hs, Locate(line, hs, cursor), cursor)
    ensures forall j :: 0 <= j < |hs| ==> Locate(line, hs, cursor)[j] <= qs[j]
    decreases |hs|
  {
    if hs != [] {
      var p := LocateHead(line, hs, qs, cursor);
      PlacedTail(line, hs, qs, cursor);
      PlacedWeaken(line, hs[1..], qs[1..], qs[0] + |hs[0]|, p + |hs[0]|);
      LocateFindsAll(line, hs[1..], qs[1..], p + |hs[0]|);
      LocateCons(line, hs, cursor);
      FoundBefore(line, hs, qs, cursor, p, Locate(line, hs[1..], p + |hs[0]|));
    }
  }

  /** A hit on the first header followed by the search from just past it. */
  lemma LocateCons(line: string, hs: seq<string>, cursor: nat)
    requires hs != [] && IndexOf(line, hs[0], cursor) != -1
    ensures Locate(line, hs, cursor)
      == [IndexOf(line, hs[0], cursor)] + Locate(line, hs[1..], IndexOf(line, hs[0], cursor) + |hs[0]|)
  {
  }

  /** Putting an occurrence of the first header in front of a placement of the rest, each at or before the given one. */
  lemma FoundBefore(line: string, hs: seq<string>, qs: seq<int>, cursor: nat, p: nat, rest: seq<int>)
    requires hs != [] && |qs| == |hs| && OccursAt(line, hs[0], p) && cursor <= p <= qs[0]
    requires Placed(line, hs[1..], rest, p + |hs[0]|)
    requires forall j :: 0 <= j < |rest| ==> rest[j] <= qs[1..][j]
    ensures Placed(line, hs, [p] + rest, cursor)
    ensures forall j :: 0 <= j < |hs| ==> ([p] + rest)[j] <= qs[j]
  {
    assert hs == [hs[0]] + hs[1..];
    PlacedCons(line, hs[0], p, hs[1..], rest, cursor);
    forall j | 0 < j < |hs| ensures ([p] + rest)[j] <= qs[j] {
      assert ([p] + rest)[j] == rest[j - 1] && qs[1..][j - 1] == qs[j];
    }
  }

  /** The first header is found, at or before its given occurrence. */
  lemma LocateHead(line: string, hs: seq<string>, qs: seq<int>, cursor: nat) returns (p: nat)
    requires Placed(line, hs, qs, cursor) && hs != []
    ensures p == IndexOf(line, hs[0], cursor) && cursor <= p <= qs[0] && OccursAt(line, hs[0], p)
  {
    assert OccursAt(line, hs[0], qs[0]) && cursor <= qs[0];
    IndexFromFirst(line, hs[0], Min(cursor, |line|), qs[0]);
    p := IndexOf(line, hs[0], cursor);
  }

  /** The method behind lines 94-103. */
  method HeaderPositions(headerLine: string, headers: seq<string>) returns (headerPositions: seq<nat>)
    ensures headerPositions == Locate(headerLine, headers, 0)
  {
    headerPositions := [];
    var pos: nat := 0;
    for k := 0 to |headers|
      invariant SearchFrom(headerLine, headers, k, pos, headerPositions) == SearchFrom(headerLine, headers, 0, 0, [])
    {
      var header := headers[k];
      var headerPos := IndexOf(headerLine, header, pos);
      if headerPos != -1 {
        headerPositions := headerPositions + [headerPos];
        pos := headerPos + |header|;
      }
    }
    SearchLocates(headerLine, headers, 0, 0, []);
    assert headers[0..] == headers;
  }

  /**
   * The search loop from its `k`-th turn, with the cursor at `cursor` and the
   * offsets `found` recorded so far: what the loop ends with.
   */
  function SearchFrom(line: string, hs: seq<string>, k: nat, cursor: nat, found: seq<nat>): seq<nat>
    requires k <= |hs|
    decreases |hs| - k
  {
    if k == |hs| then found
    else
      var p := IndexOf(line, hs[k], cursor);
      if p != -1 then SearchFrom(line, hs, k + 1, p + |hs[k]|, found + [p])
      else SearchFrom(line, hs, k + 1, cursor, found)
  }

  /** The loop appends to what it found the offsets that `Locate` gives for the remaining headers. */
  lemma {:induction false} SearchLocates(line: string, hs: seq<string>, k: nat, cursor: nat, found: seq<nat>)
    requires k <= |hs|
    ensures SearchFrom(line, hs, k, cursor, found) == found + Locate(line, hs[k..], cursor)
    decreases |hs| - k
  {
    if k == |hs| {
      assert hs[k..] == [];
      assert found + [] == found;
    } else {
      var p := IndexOf(line, hs[k], cursor);
      LocateAppend(line, hs, k, cursor, found);
      if p != -1 {
        SearchLocates(line, hs, k + 1, p + |hs[k]|, found + [p]);
      } else {
        SearchLocates(line, hs, k + 1, cursor, found);
      }
    }
  }

  /** One turn of the search keeps the offsets found so far on course. */
  lemma LocateAppend(line: string, hs: seq<string>, k: nat, cursor: nat, found: seq<nat>)
    requires k < |hs|
    ensures var p := IndexOf(line, hs[k], cursor);
      p != -1 ==>
        found + [p] + Locate(line, hs[k + 1..], p + |hs[k]|) == found + Locate(line, hs[k..], cursor)
    ensures IndexOf(line, hs[k], cursor) == -1 ==>
      found + Locate(line, hs[k + 1..], cursor) == found + Locate(line, hs[k..], cursor)
  {
    LocateStep(line, hs, k, cursor);
    var p := IndexOf(line, hs[k], cursor);
    if p != -1 {
      var rest := Locate(line, hs[k + 1..], p + |hs[k]|);
      assert found + [p] + rest == found + ([p] + rest);
    }
  }

  /** One turn of the search: the k-th header is looked up from the cursor. */
  lemma LocateStep(line: string, hs: seq<string>, k: nat, cursor: nat)
    requires k < |hs|
    ensures IndexOf(line, hs[k], cursor) != -1 ==>
      Locate(line, hs[k..], cursor)
      == [IndexOf(line, hs[k], cursor)] + Locate(line, hs[k + 1..], IndexOf(line, hs[k], cursor) + |hs[k]|)
    ensures IndexOf(line, hs[k], cursor) == -1 ==>
      Locate(line, hs[k..], cursor) == Locate(line, hs[k + 1..], cursor)
  {
    assert hs[k..][0] == hs[k] && hs[k..][1..] == hs[k + 1..];
  }

  // ===========================================================================
  // Rows

  /**
   * Lines 107-116: the cell of column `j` is the trimmed part of the trimmed
   * data line from the header's offset to the next header's offset (the end
   * of the line for the last header); the empty string when an offset is
   * missing or the start is not inside the data line.
   */
  function CellValue(hs: seq<string>, ps: seq<nat>, rowLine: string, j: nat): string
    requires j < |hs|
  {
    var start: Option<nat> := if j < |ps| then Some(ps[j]) else None;
    var end: Option<nat> :=
      if j < |hs| - 1 then (if j + 1 < |ps| then Some(ps[j + 1]) else None) else Some(|rowLine|);
    if start.Some? && end.Some? && start.value < |rowLine| then
      Trim(Substring(rowLine, start.value, Min(end.value, |rowLine|)))
    else []
  }

  function Cells(hs: seq<string>, ps: seq<nat>, rowLine: string): seq<string> {
    seq(|hs|, j requires 0 <= j < |hs| => CellValue(hs, ps, rowLine, j))
  }

  /** The record after writing `row[hs[j]] = cs[j]` for j = 0, 1, ... in turn. */
  function Record(hs: seq<string>, cs: seq<string>): Row
    requires |hs| == |cs|
    decreases |hs|
  {
    if hs == [] then map[]
    else Record(hs[..|hs| - 1], cs[..|cs| - 1])[hs[|hs| - 1] := cs[|cs| - 1]]
  }

  /** The record has one key per distinct header: two equal headers collapse into one key. */
  lemma {:induction false} RecordKeys(hs: seq<string>, cs: seq<string>)
    requires |hs| == |cs|
    ensures Record(hs, cs).Keys == HeaderKeys(hs)
    decreases |hs|
  {
    if hs != [] {
      var n := |hs| - 1;
      RecordKeys(hs[..n], cs[..n]);
      assert hs == hs[..n] + [hs[n]];
      assert HeaderKeys(hs) == HeaderKeys(hs[..n]) + {hs[n]};
    }
  }

  /** A header's value is the cell written last for it: of two equal headers the later wins. */
  lemma {:induction false} RecordLastWins(hs: seq<string>, cs: seq<string>, j: nat)
    requires |hs| == |cs| && j < |hs|
    requires forall k :: j < k < |hs| ==> hs[k] != hs[j]
    ensures hs[j] in Record(hs, cs) && Record(hs, cs)[hs[j]] == cs[j]
    decreases |hs|
  {
    var n := |hs| - 1;
    if j < n {
      assert hs[..n][j] == hs[j] && hs[n] != hs[j];
      RecordLastWins(hs[..n], cs[..n], j);
    }
  }

  /** The row of lines 92-117, cut at the header offsets. */
  function OffsetRow(hs: seq<string>, ps: seq<nat>, rowLine: string): Row {
    Record(hs, Cells(hs, ps, rowLine))
  }

  /** The row of lines 118-127: the data line's tokens assigned to the headers by position. */
  function PositionalRow(hs: seq<string>, rowLine: string): Row {
    var parts := GapTokens(rowLine);
    Record(hs, seq(|hs|, j requires 0 <= j < |hs| => if j < |parts| then parts[j] else []))
  }

  /** One data row as lines 86-127 build it from the trimmed data line. */
  function RowFor(headerLine: string, hs: seq<string>, rowLine: string): Row {
    if |hs| > 1 then OffsetRow(hs, Locate(headerLine, hs, 0), rowLine) else PositionalRow(hs, rowLine)
  }

  /** The rows for the data lines `lines[1..]`, in order. */
  function Rows(lines: seq<string>, hs: seq<string>): seq<Row>
    requires |lines| >= 1
  {
    seq(|lines| - 1, k requires 0 <= k < |lines| - 1 => RowFor(lines[0], hs, Trim(lines[k + 1])))
  }

  /** The method behind lines 106-117. */
  method FillRow(headers: seq<string>, headerPositions: seq<nat>, rowLine: string) returns (row: Row)
    ensures row == OffsetRow(headers, headerPositions, rowLine)
  {
    ghost var cells := Cells(headers, headerPositions, rowLine);
    row := map[];
    for j := 0 to |headers|
      invariant row == Record(headers[..j], cells[..j])
    {
      var start: Option<nat> := if j < |headerPositions| then Some(headerPositions[j]) else None;
      var end: Option<nat> :=
        if j < |headers| - 1 then (if j + 1 < |headerPositions| then Some(headerPositions[j + 1]) else None)
        else Some(|rowLine|);
      RecordSnoc(headers, cells, j);
      if start.Some? && end.Some? && start.value < |rowLine| {
        var endPos := Min(end.value, |rowLine|);
        var value := Trim(Substring(rowLine, start.value, endPos));
        assert value == cells[j];
        row := row[headers[j] := value];
      } else {
        assert cells[j] == [];
        row := row[headers[j] := []];
      }
    }
    assert headers[..|headers|] == headers && cells[..|headers|] == cells;
  }

  /** Writing one more cell: the record of a longer prefix is one map update more. */
  lemma RecordSnoc(hs: seq<string>, cs: seq<string>, j: nat)
    requires |hs| == |cs| && j < |hs|
    ensures Record(hs[..j + 1], cs[..j + 1]) == Record(hs[..j], cs[..j])[hs[j] := cs[j]]
  {
    assert hs[..j + 1][..j] == hs[..j] && cs[..j + 1][..j] == cs[..j];
  }

  // ===========================================================================
  // Lines and the whole extraction

  /** `lines.filter(line => line.trim() !== "")`. */
  function NonBlank(ls: seq<string>): (r: seq<string>)
    ensures |r| <= |ls|
    ensures forall k :: 0 <= k < |r| ==> Trim(r[k]) != [] && r[k] in ls
    ensures forall l :: l in ls && Trim(l) != [] ==> l in r
  {
    if ls == [] then []
    else if Trim(ls[0]) == [] then NonBlank(ls[1..])
    else [ls[0]] + NonBlank(ls[1..])
  }

  /** A single line is kept exactly when it is not blank. */
  lemma NonBlankSingle(l: string)
    ensures NonBlank([l]) == if Trim(l) == [] then [] else [l]
  {
    assert [l][1..] == [];
  }

  /** The filter works piecewise: the kept lines stay in input order, repeated lines included. */
  lemma {:induction false} NonBlankAppend(a: seq<string>, b: seq<string>)
    ensures NonBlank(a + b) == NonBlank(a) + NonBlank(b)
    decreases |a|
  {
    if a == [] {
      assert a + b == b;
    } else {
      assert (a + b)[0] == a[0] && (a + b)[1..] == a[1..] + b;
      NonBlankAppend(a[1..], b);
    }
  }

  /** Line 53: the lines of the text that are not blank, in order. */
  function NonBlankLines(text: string): seq<string> {
    NonBlank(Split(text, '\n'))
  }

  const NoTableMessage: string := "Could not detect a table structure in the image"

  datatype Extraction =
    | Extracted(table: TableResult)
    | NoTable(message: string)   // the thrown Error
    | Hangs                      // the fallback slicing loop never ends

  /** `extractTableStructure` (lines 51-133) as a function of the recognised text. */
  function Extract(text: string): Extraction {
    var lines := NonBlankLines(text);
    if |lines| < 2 then NoTable(NoTableMessage)
    else
      match HeaderSet(lines[0])
      case None => Hangs
      case Some(hs) => Extracted(TableResult(hs, Rows(lines, hs)))
  }

  /** `extractTableStructure`, step by step as lines 51-133 do it. */
  method ExtractTableStructure(text: string) returns (r: Extraction)
    ensures r == Extract(text)
  {
    var lines := NonBlankLines(text);
    if |lines| < 2 {
      return NoTable(NoTableMessage);
    }
    var headerLine := lines[0];
    var headers := GapTokens(headerLine);
    if |headers| < 2 {
      var headerText := Trim(headerLine);
      var avgColWidth := |headerText| / 3;
      if avgColWidth == 0 && |headerText| > 0 {
        // `i += avgColWidth` never moves `i` past `headerText.length`
        return Hangs;
      }
      headers := SliceHeaders(headerText, avgColWidth);
    }
    assert HeaderSet(headerLine) == Some(headers);
    var rows := BuildRows(lines, headers);
    return Extracted(TableResult(headers, rows));
  }

  /** The slicing loop of lines 75-79, for a width that is positive or a line that is empty. */
  method SliceHeaders(headerText: string, avgColWidth: nat) returns (headers: seq<string>)
    requires avgColWidth > 0 || |headerText| == 0
    ensures avgColWidth > 0 ==> headers == FallbackHeaders(headerText, avgColWidth)
    ensures avgColWidth == 0 ==> headers == []
  {
    headers := [];
    if avgColWidth == 0 {
      return;
    }
    var i: nat := 0;
    while i < |headerText|
      invariant headers + FallbackFrom(headerText, avgColWidth, i) == FallbackHeaders(headerText, avgColWidth)
      decreases |headerText| - i
    {
      var slice := FallbackSlice(headerText, avgColWidth, i);
      FallbackAppend(headerText, avgColWidth, i, headers);
      headers := headers + [slice];
      i := i + avgColWidth;
    }
    assert FallbackFrom(headerText, avgColWidth, i) == [];
    assert headers + [] == headers;
  }

  /** One turn of the slicing loop keeps the loop's accumulated headers on course. */
  lemma FallbackAppend(headerText: string, w: nat, i: nat, headers: seq<string>)
    requires w > 0 && i < |headerText|
    ensures headers + [FallbackSlice(headerText, w, i)] + FallbackFrom(headerText, w, i + w)
      == headers + FallbackFrom(headerText, w, i)
  {
    FallbackStep(headerText, w, i);
    var slice := FallbackSlice(headerText, w, i);
    assert headers + [slice] + FallbackFrom(headerText, w, i + w) == headers + ([slice] + FallbackFrom(headerText, w, i + w));
  }

  /** One turn of the slicing loop: one slice, then the slices from the next offset. */
  lemma FallbackStep(headerText: string, w: nat, i: nat)
    requires w > 0 && i < |headerText|
    ensures FallbackFrom(headerText, w, i)
      == [FallbackSlice(headerText, w, i)] + FallbackFrom(headerText, w, i + w)
  {
  }

  /** The row loop of lines 84-130, over lines that are all non-blank. */
  method BuildRows(lines: seq<string>, headers: seq<string>) returns (rows: seq<Row>)
    requires |lines| >= 1
    requires forall k :: 0 <= k < |lines| ==> Trim(lines[k]) != []
    ensures rows == Rows(lines, headers)
  {
    var headerLine := lines[0];
    ghost var all := Rows(lines, headers);
    rows := [];
    for i := 1 to |lines|
      invariant rows == all[..i - 1]
    {
      var rowLine := Trim(lines[i]);
      if rowLine == [] {
        // the `continue` of line 87: blank lines were already dropped
        assert false;
      }
      var row: Row;
      if |headers| > 1 {
        var headerPositions := HeaderPositions(headerLine, headers);
        row := FillRow(headers, headerPositions, rowLine);
      } else {
        row := PositionalRow(headers, rowLine);
      }
      assert row == all[i - 1];
      assert all[..i] == all[..i - 1] + [all[i - 1]];
      rows := rows + [row];
    }
    assert all[..|lines| - 1] == all;
  }

  // ===========================================================================
  // What the extraction promises

  /** Fewer than two non-blank lines, and only then, make the extraction throw its message. */
  lemma ExtractFails(text: string)
    ensures Extract(text).NoTable? <==> |NonBlankLines(text)| < 2
    ensures Extract(text).NoTable? ==> Extract(text).message == NoTableMessage
  {
  }

  /**
   * Where the headers come from: the tokens of the first non-blank line when
   * it has at least two, otherwise the 3 to 5 fallback slices, or no result
   * at all when the trimmed header line has 1 or 2 characters.
   */
  lemma ExtractHeaders(text: string)
    requires |NonBlankLines(text)| >= 2
    ensures var line := NonBlankLines(text)[0];
      && (|GapTokens(line)| >= 2 ==> Extract(text).Extracted? && Extract(text).table.headers == GapTokens(line))
      && (|GapTokens(line)| < 2 ==> (Extract(text).Hangs? <==> |Trim(line)| < 3))
      && (|GapTokens(line)| < 2 && |Trim(line)| >= 3 ==>
           Extract(text).Extracted?
           && Extract(text).table.headers == FallbackHeaders(Trim(line), |Trim(line)| / 3)
           && 3 <= |Extract(text).table.headers| <= 5)
  {
    var line := NonBlankLines(text)[0];
    assert Trim(line) != [];
    HeaderSetSize(line);
  }

  /**
   * A table always has at least two headers, so the single-header branch of
   * lines 118-127 is never taken; there is one row per non-blank line after
   * the first, in order, and every row has exactly the headers as keys.
   */
  lemma ExtractRows(text: string)
    requires Extract(text).Extracted?
    ensures var lines, t := NonBlankLines(text), Extract(text).table;
      && |t.headers| >= 2
      && |t.rows| == |lines| - 1
      && (forall k :: 0 <= k < |t.rows| ==>
            t.rows[k] == OffsetRow(t.headers, Locate(lines[0], t.headers, 0), Trim(lines[k + 1])))
      && WellFormed(t)
  {
    var lines := NonBlankLines(text);
    HeaderSetSize(lines[0]);
    RowsShape(lines, Extract(text).table.headers);
  }

  /** With at least two headers every row is cut at the header offsets and has the headers as keys. */
  lemma RowsShape(lines: seq<string>, hs: seq<string>)
    requires |lines| >= 1 && |hs| >= 2
    ensures |Rows(lines, hs)| == |lines| - 1
    ensures forall k :: 0 <= k < |lines| - 1 ==>
      Rows(lines, hs)[k] == OffsetRow(hs, Locate(lines[0], hs, 0), Trim(lines[k + 1]))
    ensures WellFormed(TableResult(hs, Rows(lines, hs)))
  {
    var ps := Locate(lines[0], hs, 0);
    forall k | 0 <= k < |lines| - 1 ensures Rows(lines, hs)[k].Keys == HeaderKeys(hs) {
      RecordKeys(hs, Cells(hs, ps, Trim(lines[k + 1])));
    }
  }

  /**
   * The cursor search finds every header: one offset per header, in order and
   * without overlap, so the offsets never decrease, and strictly increase when
   * no header is empty.
   */
  lemma ExtractOffsets(text: string)
    requires Extract(text).Extracted?
    ensures var line, hs := NonBlankLines(text)[0], Extract(text).table.headers;
      var ps := Locate(line, hs, 0);
      && |ps| == |hs|
      && Placed(line, hs, ps, 0)
      && (forall i, j :: 0 <= i < j < |ps| ==> ps[i] <= ps[j])
      && ((forall j :: 0 <= j < |hs| ==> hs[j] != []) ==> forall i, j :: 0 <= i < j < |ps| ==> ps[i] < ps[j])
  {
    var line, hs := NonBlankLines(text)[0], Extract(text).table.headers;
    var qs := HeaderSetPlaced(line);
    LocateFindsAll(line, hs, qs, 0);
  }

  /**
   * The cell of row `k` under header `j` (when no later header has the same
   * text): the trimmed slice of the trimmed data line from the header's offset
   * to the next header's offset, or to the end of the line for the last
   * header; the empty string when the offset is at or past the line's end.
   */
  lemma ExtractCell(text: string, k: nat, j: nat)
    requires Extract(text).Extracted?
    requires k < |Extract(text).table.rows| && j < |Extract(text).table.headers|
    requires var hs := Extract(text).table.headers; forall m :: j < m < |hs| ==> hs[m] != hs[j]
    ensures var lines, t := NonBlankLines(text), Extract(text).table;
      var ps := Locate(lines[0], t.headers, 0);
      |ps| == |t.headers| && (j + 1 < |ps| ==> ps[j] <= ps[j + 1]) && t.headers[j] in t.rows[k]
    ensures var lines, t := NonBlankLines(text), Extract(text).table;
      var ps, rowLine := Locate(lines[0], t.headers, 0), Trim(lines[k + 1]);
      var end := if j == |t.headers| - 1 then |rowLine| else ps[j + 1];
      CellText(t.rows[k], t.headers[j])
      == if ps[j] >= |rowLine| then [] else Trim(rowLine[ps[j]..Min(end, |rowLine|)])
  {
    var lines, t := NonBlankLines(text), Extract(text).table;
    ExtractRows(text);
    ExtractOffsets(text);
    var ps, rowLine := Locate(lines[0], t.headers, 0), Trim(lines[k + 1]);
    assert t.rows[k] == OffsetRow(t.headers, ps, rowLine);
    assert j + 1 < |ps| ==> ps[j] <= ps[j + 1];
    CellAt(t.headers, ps, rowLine, j);
  }

  /**
   * In a row cut at one offset per header, the cell of a header that no later
   * header repeats is the trimmed slice from its offset to the next offset.
   */
  lemma CellAt(hs: seq<string>, ps: seq<nat>, rowLine: string, j: nat)
    requires |ps| == |hs| && j < |hs| && (j + 1 < |ps| ==> ps[j] <= ps[j + 1])
    requires forall m :: j < m < |hs| ==> hs[m] != hs[j]
    ensures hs[j] in OffsetRow(hs, ps, rowLine)
    ensures var end := if j == |hs| - 1 then |rowLine| else ps[j + 1];
      CellText(OffsetRow(hs, ps, rowLine), hs[j])
      == if ps[j] >= |rowLine| then [] else Trim(rowLine[ps[j]..Min(end, |rowLine|)])
  {
    var cs := Cells(hs, ps, rowLine);
    RecordLastWins(hs, cs, j);
    assert cs[j] == CellValue(hs, ps, rowLine, j);
  }

  /**
   * In the single-header branch, the cell of a header that no later header
   * repeats is the data line's token at the header's position, or the empty
   * string when the line has fewer tokens; every header is a key. (This branch
   * is never taken: see `ExtractRows`.)
   */
  lemma PositionalCell(hs: seq<string>, rowLine: string, j: nat)
    requires j < |hs|
    requires forall m :: j < m < |hs| ==> hs[m] != hs[j]
    ensures PositionalRow(hs, rowLine).Keys == HeaderKeys(hs)
    ensures var parts := GapTokens(rowLine);
      CellText(PositionalRow(hs, rowLine), hs[j]) == if j < |parts| then parts[j] else []
  {
    var parts := GapTokens(rowLine);
    var cs := seq(|hs|, m requires 0 <= m < |hs| => if m < |parts| then parts[m] else []);
    RecordKeys(hs, cs);
    RecordLastWins(hs, cs, j);
  }

  /** The header line "Name  Age  City" gives the offsets 0, 6 and 11. */
  lemma ScenarioOffsets(line: string, hs: seq<string>)
    requires line == "Name  Age  City" && hs == ["Name", "Age", "City"]
    ensures Locate(line, hs, 0) == [0, 6, 11]
  {
    ScenarioFind(line, hs[0], 0, 0);
    ScenarioFind(line, hs[1], 4, 6);
    ScenarioFind(line, hs[2], 9, 11);
    LocateCons(line, hs[2..], 9);
    LocateCons(line, hs[1..], 4);
    LocateCons(line, hs, 0);
    assert hs[1..][1..] == hs[2..] && hs[2..][1..] == [];
  }

  /** `indexOf` from `from` finds `t` at `q` when `t` occurs there and its first letter does not occur in between. */
  lemma ScenarioFind(line: string, t: string, from: nat, q: nat)
    requires from <= q && q + |t| <= |line| && line[q..q + |t|] == t && t != []
    requires forall k :: from <= k < q ==> line[k] != t[0]
    ensures IndexOf(line, t, from) == q
  {
    assert OccursAt(line, t, q);
    IndexFromFirst(line, t, from, q);
    var r := IndexFrom(line, t, from);
    assert line[r..r + |t|][0] == line[r];
  }

  /**
   * The data line "Bob  25  LA", cut at the offsets 0, 6 and 11, gives the
   * cells "Bob  2", "5  LA" and the empty string: cutting at the header
   * offsets misplaces values narrower than their headers.
   */
  lemma ScenarioCells(hs: seq<string>, row: string)
    requires hs == ["Name", "Age", "City"] && row == "Bob  25  LA"
    ensures Cells(hs, [0, 6, 11], row) == ["Bob  2", "5  LA", ""]
  {
    var ps := [0, 6, 11];
    var a, b := row[0..6], row[6..11];
    assert Lead(a) == 0 && Trail(a) == 6 by { assert !IsSpace(a[0]) && !IsSpace(a[5]); }
    assert Lead(b) == 0 && Trail(b) == 5 by { assert !IsSpace(b[0]) && !IsSpace(b[4]); }
    assert CellValue(hs, ps, row, 0) == a == "Bob  2";
    assert CellValue(hs, ps, row, 1) == b == "5  LA";
    assert CellValue(hs, ps, row, 2) == [];
  }

  // ===========================================================================
  // The placeholder table and `extractTableData`

  /** Lines 158-164: the table shown whenever anything fails. */
  function Placeholder(): (t: TableResult)
    ensures WellFormed(t)
  {
    TableResult(
      ["Column 1", "Column 2", "Column 3"],
      [ map["Column 1" := "Data 1", "Column 2" := "Data 2", "Column 3" := "Data 3"],
        map["Column 1" := "Data 4", "Column 2" := "Data 5", "Column 3" := "Data 6"] ])
  }

  function Digit(n: nat): char
    requires n < 10
  {
    ('0' as int + n) as char
  }

  /** Header c is "Column c+1" and the cell of row r under it is "Data 3r+c+1". */
  lemma PlaceholderCells()
    ensures |Placeholder().headers| == 3 && |Placeholder().rows| == 2
    ensures forall c :: 0 <= c < 3 ==> Placeholder().headers[c] == "Column " + [Digit(c + 1)]
    ensures forall r, c :: 0 <= r < 2 && 0 <= c < 3 ==>
      Placeholder().rows[r][Placeholder().headers[c]] == "Data " + [Digit(3 * r + c + 1)]
  {
  }

  datatype Outcome = Returned(table: TableResult) | NeverReturns

  /**
   * `extractTableData` (lines 136-166) given what the recognition engine
   * produced (`None` when it or any earlier step threw): the extracted table,
   * or the placeholder when anything threw. What it returns is always a
   * well-formed table with at least two headers and one row, so the emptiness
   * check of the page never fires on it.
   */
  method ExtractTableData(recognized: Option<string>) returns (r: Outcome)
    ensures recognized.None? ==> r == Returned(Placeholder())
    ensures recognized.Some? && Extract(recognized.value).Extracted? ==>
      r == Returned(Extract(recognized.value).table)
    ensures recognized.Some? && Extract(recognized.value).NoTable? ==> r == Returned(Placeholder())
    ensures r.NeverReturns? <==> recognized.Some? && Extract(recognized.value).Hangs?
    ensures r.Returned? ==> WellFormed(r.table) && |r.table.headers| >= 2 && |r.table.rows| >= 1
  {
    if recognized.None? {
      return Returned(Placeholder());
    }
    var tableData := ExtractTableStructure(recognized.value);
    match tableData
    case Extracted(t) =>
      ExtractRows(recognized.value);
      r := Returned(t);
    case NoTable(_) =>
      r := Returned(Placeholder());
    case Hangs =>
      r := NeverReturns;
  }
}
