/**
 * Day 6: finding the start-of-packet marker in a datastream. A circular
 * buffer holds the last `n` characters read; the marker ends at the first
 * position where the buffer is full and its characters are pairwise
 * different. Every non-blank line is searched on its own and the positions
 * found are reported one per line.
 */
module Marker {
  import opened Wrappers
  import Text

  // ---------------------------------------------------------------------
  // Sequences of values.

  /** No value occurs twice. */
  predicate Distinct<T(==)>(s: seq<T>) {
    forall a, b :: 0 <= a < b < |s| ==> s[a] != s[b]
  }

  /** The set of values in `s` (what `new Set(s)` holds). */
  function Elements<T(==)>(s: seq<T>): set<T> {
    set x | x in s
  }

  /** The values are pairwise different exactly when the set of them is as large as the sequence. */
  lemma {:induction false} DistinctCount<T>(s: seq<T>)
    ensures |Elements(s)| <= |s|
    ensures Distinct(s) <==> |Elements(s)| == |s|
  {
    if s != [] {
      var init, last := s[..|s| - 1], s[|s| - 1];
      DistinctCount(init);
      assert s == init + [last];
      assert Elements(s) == Elements(init) + {last};
      if last in init {
        assert Elements(s) == Elements(init);
        var k :| 0 <= k < |init| && init[k] == last;
        assert s[k] == s[|s| - 1];
      } else {
        assert |Elements(s)| == |Elements(init)| + 1;
        if Distinct(init) {
          forall a, b | 0 <= a < b < |s|
            ensures s[a] != s[b]
          {
            if b == |s| - 1 {
              assert s[a] == init[a];
            } else {
              assert s[a] == init[a] && s[b] == init[b];
            }
          }
        } else {
          var a, b :| 0 <= a < b < |init| && init[a] == init[b];
          assert s[a] == s[b];
        }
      }
    }
  }

  /** Every value wrapped as present. */
  function Wrap<T>(s: seq<T>): (r: seq<Option<T>>)
    ensures |r| == |s| && forall k :: 0 <= k < |s| ==> r[k] == Some(s[k])
  {
    seq(|s|, k requires 0 <= k < |s| => Some(s[k]))
  }

  /** `k` slots never written (`undefined` in a fresh `new Array(k)`). */
  function Nones<T>(k: nat): (r: seq<Option<T>>)
    ensures |r| == k && forall i :: 0 <= i < k ==> r[i] == None
  {
    seq(k, _ => None)
  }

  /**
   * The `r` newest values of `w` moved to the front: the layout of a full
   * circular buffer whose oldest value sits in slot `r`.
   */
  function Rotate<T>(w: seq<T>, r: nat): (s: seq<T>)
    requires r <= |w|
    ensures |s| == |w|
    ensures forall p :: 0 <= p < r ==> s[p] == w[|w| - r + p]
    ensures forall p :: r <= p < |w| ==> s[p] == w[p - r]
  {
    w[|w| - r..] + w[..|w| - r]
  }

  lemma DistinctWrap<T>(s: seq<T>)
    ensures Distinct(Wrap(s)) <==> Distinct(s)
  {
    var w := Wrap(s);
    if Distinct(s) {
      forall a, b | 0 <= a < b < |w| ensures w[a] != w[b] {
        assert w[a] == Some(s[a]) && w[b] == Some(s[b]);
      }
    }
  }

  lemma DistinctRotate<T>(w: seq<T>, r: nat)
    requires r <= |w|
    ensures Distinct(Rotate(w, r)) <==> Distinct(w)
  {
    var s := Rotate(w, r);
    var front, back := w[..|w| - r], w[|w| - r..];
    assert w == front + back;
    assert s == back + front;
    assert Elements(s) == Elements(w);
    DistinctCount(s);
    DistinctCount(w);
  }

  /** The values written so far followed by `k` unwritten slots: distinct only with at most one hole. */
  lemma DistinctPadded<T>(h: seq<T>, k: nat)
    ensures Distinct(Wrap(h) + Nones(k)) <==> Distinct(h) && k <= 1
  {
    var s := Wrap(h) + Nones(k);
    DistinctWrap(h);
    if k >= 2 {
      assert s[|h|] == s[|h| + 1];
    } else if Distinct(h) {
      forall a, b | 0 <= a < b < |s| ensures s[a] != s[b] {
        if b < |h| {
          assert s[a] == Wrap(h)[a] && s[b] == Wrap(h)[b];
          assert Wrap(h)[a] != Wrap(h)[b];
        }
      }
    } else {
      var a, b :| 0 <= a < b < |h| && h[a] == h[b];
      assert s[a] == s[b];
    }
  }

  // ---------------------------------------------------------------------
  // The circular buffer.

  /** In a rotated window whose oldest value sits at `r`, the `j`-th oldest is `j` slots further on, wrapping round. */
  lemma RotateGet<T>(w: seq<T>, r: nat, j: nat)
    requires r < |w| && j < |w|
    ensures Rotate(w, r)[(r + j) % |w|] == w[j]
  {
    if r + j < |w| {
      ModBelow(r + j, |w|);
      assert Rotate(w, r)[r + j] == w[j];
    } else {
      ModWrapsOnce(r + j, |w|);
      assert Rotate(w, r)[r + j - |w|] == w[j];
    }
  }

  lemma ModBelow(x: int, m: int)
    requires 0 <= x < m
    ensures x % m == x
  {
  }

  lemma ModWrapsOnce(x: int, m: int)
    requires 0 < m <= x < 2 * m
    ensures x % m == x - m
  {
  }

  /** The slot after `index`, wrapping round at `size`. */
  function Next(index: nat, size: nat): (r: nat)
    requires index < size
    ensures r < size && r == (index + 1) % size
  {
    if index + 1 < size then index + 1 else 0
  }

  /**
   * The slots of a buffer of `size` slots after the values `h` were pushed,
   * starting at slot 0, with the next write going to `index`: the values in
   * order with unwritten slots behind them, and, once it is full, the last
   * `size` values rotated so that the oldest sits at `index`.
   */
  ghost function Layout<T>(h: seq<T>, size: nat, index: nat): (s: seq<Option<T>>)
    requires index < size
    ensures |s| == size
  {
    if |h| < size then Wrap(h) + Nones(size - |h|)
    else Wrap(Rotate(h[|h| - size..], index))
  }

  /** The slots are all different exactly when the last `size` values are, and, before the buffer is full, when only one slot is unwritten. */
  lemma DistinctLayout<T>(h: seq<T>, size: nat, index: nat)
    requires index < size
    ensures |h| >= size ==> (Distinct(Layout(h, size, index)) <==> Distinct(h[|h| - size..]))
    ensures |h| < size ==> (Distinct(Layout(h, size, index)) <==> |h| == size - 1 && Distinct(h))
  {
    if |h| >= size {
      var w := h[|h| - size..];
      DistinctWrap(Rotate(w, index));
      DistinctRotate(w, index);
    } else {
      DistinctPadded(h, size - |h|);
    }
  }

  /** A push writes the slot at `index` and advances it, which is the layout after one more value. */
  lemma PushLayout<T>(h: seq<T>, v: T, size: nat, index: nat)
    requires index < size
    requires |h| < size ==> index == |h|
    ensures Layout(h + [v], size, Next(index, size)) == Layout(h, size, index)[index := Some(v)]
  {
    if |h| + 1 < size {
      PushFilling(h, v, size);
    } else if |h| + 1 == size {
      PushFills(h, v, size);
    } else {
      PushWraps(h, v, size, index);
    }
  }

  lemma PushFilling<T>(h: seq<T>, v: T, size: nat)
    requires |h| + 1 < size
    ensures Layout(h + [v], size, |h| + 1) == Layout(h, size, |h|)[|h| := Some(v)]
  {
    var after, before := Layout(h + [v], size, |h| + 1), Layout(h, size, |h|)[|h| := Some(v)];
    forall p | 0 <= p < size ensures after[p] == before[p] {
      if p < |h| {
        assert after[p] == Some((h + [v])[p]);
      }
    }
  }

  lemma PushFills<T>(h: seq<T>, v: T, size: nat)
    requires |h| + 1 == size
    ensures Layout(h + [v], size, 0) == Layout(h, size, |h|)[|h| := Some(v)]
  {
    LayoutOfFull(h + [v]);
    WrapSnoc(h, v);
  }

  /** A buffer that has just filled up holds the values in order, the oldest in slot 0. */
  lemma LayoutOfFull<T>(h: seq<T>)
    requires |h| > 0
    ensures Layout(h, |h|, 0) == Wrap(h)
  {
    assert h[|h| - |h|..] == h;
    assert Rotate(h, 0) == h;
  }

  lemma WrapSnoc<T>(h: seq<T>, v: T)
    ensures Wrap(h + [v]) == (Wrap(h) + Nones(1))[|h| := Some(v)]
  {
    var a, b := Wrap(h + [v]), (Wrap(h) + Nones(1))[|h| := Some(v)];
    forall k | 0 <= k < |h| ensures a[k] == b[k] {
      assert a[k] == Some((h + [v])[k]);
    }
  }

  lemma PushWraps<T>(h: seq<T>, v: T, size: nat, index: nat)
    requires index < size <= |h|
    ensures Layout(h + [v], size, Next(index, size)) == Layout(h, size, index)[index := Some(v)]
  {
    var w := h[|h| - size..];
    assert (h + [v])[|h| + 1 - size..] == w[1..] + [v];
    RotateShift(w, v, index);
    WrapUpdate(Rotate(w, index), index, v);
  }

  /** Dropping the oldest value, appending `v` and moving the rotation on one slot overwrites the oldest with `v`. */
  lemma RotateShift<T>(w: seq<T>, v: T, index: nat)
    requires index < |w|
    ensures Rotate(w[1..] + [v], Next(index, |w|)) == Rotate(w, index)[index := v]
  {
    var size, w', i' := |w|, w[1..] + [v], Next(index, |w|);
    var after, before := Rotate(w', i'), Rotate(w, index)[index := v];
    forall p | 0 <= p < size && p != index ensures after[p] == before[p] {
      if i' == 0 {
        assert after[p] == w'[p] == w[p + 1];
      } else if p < index {
        assert after[p] == w'[size - i' + p] == w[size - index + p];
      } else {
        assert after[p] == w'[p - i'] == w[p - index];
      }
    }
  }

  lemma WrapUpdate<T>(s: seq<T>, i: nat, v: T)
    requires i < |s|
    ensures Wrap(s[i := v]) == Wrap(s)[i := Some(v)]
  {
  }

  /**
   * `CircularBuffer`: a fixed array of `size` slots written in turn. The
   * ghost field `pushed` is every value pushed so far, oldest first.
   */
  class CircularBuffer<T(==)> {
    const buffer: array<Option<T>>
    const size: nat
    var index: nat
    ghost var pushed: seq<T>

    ghost predicate Valid()
      reads this, buffer
    {
      0 < size && buffer.Length == size && index < size &&
      (|pushed| < size ==> index == |pushed|) &&
      buffer[..] == Layout(pushed, size, index)
    }

    constructor(n: nat)
      requires n > 0
      ensures Valid() && fresh(buffer)
      ensures size == n && pushed == []
    {
      buffer := new Option<T>[n](_ => None);
      size := n;
      index := 0;
      pushed := [];
      new;
      assert buffer[..] == Layout([], n, 0);
    }

    /** `push`: writes the slot at `index` and moves `index` on by one, modulo `size`. */
    method Push(value: T)
      requires Valid()
      modifies this, buffer
      ensures Valid()
      ensures pushed == old(pushed) + [value]
      ensures buffer[old(index)] == Some(value)
      ensures index == (old(index) + 1) % size
    {
      PushLayout(pushed, value, size, index);
      buffer[index] := Some(value);
      pushed := pushed + [value];
      index := (index + 1) % size;
      assert index == Next(old(index), size);
    }

    /**
     * `get(j)`: the slot `(index + j) % size`, with JavaScript's remainder,
     * which keeps the sign of a negative dividend (`-0` reads slot 0, other
     * negative indices read `undefined`). On a full buffer, `get(j)` for
     * `0 <= j < size` is the `j`-th oldest of the last `size` values.
     */
    method Get(j: int) returns (r: Option<T>)
      requires Valid()
      ensures |pushed| >= size && 0 <= j < size ==> r == Some(pushed[|pushed| - size + j])
      ensures j >= 0 ==> r in buffer[..]
    {
      var t := index + j;
      if t >= 0 {
        var k := t % size;
        r := buffer[k];
        assert r == buffer[..][k];
        if |pushed| >= size && 0 <= j < size {
          var w := pushed[|pushed| - size..];
          RotateGet(w, index, j);
          assert r == Some(Rotate(w, index)[k]);
        }
      } else if (-t) % size == 0 {
        r := buffer[0];
      } else {
        r := None;
      }
    }

    /** `full`: the last slot has been written, which happens exactly once `size` values were pushed. */
    method Full() returns (r: bool)
      requires Valid()
      ensures r <==> |pushed| >= size
    {
      r := buffer[size - 1] != None;
      assert buffer[..][size - 1] == buffer[size - 1];
    }

    /**
     * `allUnique`: the set of the slots has `size` members. On a full buffer
     * that means the last `size` values are pairwise different; before that,
     * the unwritten slots all hold the same `undefined`, so it holds only with
     * exactly one slot unwritten and the pushed values different.
     */
    method AllUnique() returns (r: bool)
      requires Valid()
      ensures r <==> Distinct(buffer[..])
      ensures |pushed| >= size ==> (r <==> Distinct(pushed[|pushed| - size..]))
      ensures |pushed| < size ==> (r <==> |pushed| == size - 1 && Distinct(pushed))
    {
      var seen: set<Option<T>> := {};
      for i := 0 to size
        invariant seen == Elements(buffer[..i])
      {
        assert buffer[..i + 1] == buffer[..i] + [buffer[i]];
        seen := seen + {buffer[i]};
      }
      assert buffer[..size] == buffer[..];
      DistinctCount(buffer[..]);
      r := |seen| == size;
      DistinctLayout(pushed, size, index);
    }
  }

  // ---------------------------------------------------------------------
  // The marker search.

  /** A marker ends at 1-based position `p`: the `n` characters up to and including `p` are pairwise different. */
  predicate MarkerAt(line: string, n: nat, p: nat) {
    n <= p <= |line| && Distinct(line[p - n..p])
  }

  /** The first marker position at or after `from`. */
  function MarkerFrom(line: string, n: nat, from: nat): (r: Option<nat>)
    ensures r.Some? ==> from <= r.value && MarkerAt(line, n, r.value)
    ensures forall q: nat :: from <= q && (r.None? || q < r.value) ==> !MarkerAt(line, n, q)
    decreases |line| + 1 - from
  {
    if from > |line| then None
    else if MarkerAt(line, n, from) then Some(from)
    else MarkerFrom(line, n, from + 1)
  }

  /** The least position at which a marker of `n` characters ends, if there is one. */
  function Marker(line: string, n: nat): (r: Option<nat>)
    requires n > 0
    ensures r.Some? ==> MarkerAt(line, n, r.value) && forall q: nat :: q < r.value ==> !MarkerAt(line, n, q)
    ensures r.None? ==> forall q: nat :: !MarkerAt(line, n, q)
  {
    MarkerFrom(line, n, 1)
  }

  /** One step of the inner loop of `run`: push the next character, then test for a full buffer of different characters. */
  method PushAndTest(previous: CircularBuffer<char>, c: char) returns (found: bool)
    requires previous.Valid()
    modifies previous, previous.buffer
    ensures previous.Valid() && previous.pushed == old(previous.pushed) + [c]
    ensures found <==> |previous.pushed| >= previous.size && Distinct(previous.pushed[|previous.pushed| - previous.size..])
  {
    previous.Push(c);
    var full := previous.Full();
    found := false;
    if full {
      found := previous.AllUnique();
    }
  }

  /** The last `n` of the first `i + 1` characters are all different exactly when a marker ends at `i + 1`. */
  lemma WindowIsMarker(line: string, n: nat, i: nat)
    requires i < |line|
    ensures (i + 1 >= n && Distinct(line[..i + 1][i + 1 - n..])) <==> MarkerAt(line, n, i + 1)
  {
    if i + 1 >= n {
      assert line[..i + 1][i + 1 - n..] == line[i + 1 - n..i + 1];
    }
  }

  /** The inner loop of `run`: push characters until the buffer is full and all different. */
  method FindMarker(line: string, n: nat) returns (r: Option<nat>)
    requires n > 0
    ensures r == Marker(line, n)
  {
    var previous := new CircularBuffer<char>(n);
    for i := 0 to |line|
      invariant previous.Valid() && fresh(previous) && fresh(previous.buffer)
      invariant previous.size == n && previous.pushed == line[..i]
      invariant MarkerFrom(line, n, i + 1) == Marker(line, n)
    {
      assert line[..i + 1] == line[..i] + [line[i]];
      var found := PushAndTest(previous, line[i]);
      WindowIsMarker(line, n, i);
      if found {
        return Some(i + 1);
      }
    }
    return None;
  }

  /** What `run` appends for one line: nothing for a blank line, else a separator if needed and the position found. */
  function AddLine(ret: string, line: string, n: nat): string
    requires n > 0
  {
    if line == "" then ret
    else
      (if |ret| > 0 then ret + "\n" else ret) +
      (match Marker(line, n)
       case Some(p) => Text.NatToString(p)
       case None => "")
  }

  /** The output of `run` over `lines`. */
  function Report(lines: seq<string>, n: nat): string
    requires n > 0
  {
    if lines == [] then ""
    else AddLine(Report(lines[..|lines| - 1], n), lines[|lines| - 1], n)
  }

  /** `run`: searches every non-blank line and joins the positions with newlines. */
  method Run(lines: seq<string>, n: nat) returns (ret: string)
    requires n > 0
    ensures ret == Report(lines, n)
  {
    ret := "";
    for li := 0 to |lines|
      invariant ret == Report(lines[..li], n)
    {
      assert lines[..li + 1][..li] == lines[..li];
      var line := lines[li];
      if line == "" {
        continue;
      }
      if |ret| > 0 {
        ret := ret + "\n";
      }
      var found := FindMarker(line, n);
      if found.Some? {
        ret := ret + Text.NatToString(found.value);
      }
    }
    assert lines[..|lines|] == lines;
  }

  /** `one`: markers of four characters. */
  method One(lines: seq<string>) returns (ret: string)
    ensures ret == Report(lines, 4)
  {
    ret := Run(lines, 4);
  }

  /** `two`: markers of fourteen characters. */
  method Two(lines: seq<string>) returns (ret: string)
    ensures ret == Report(lines, 14)
  {
    ret := Run(lines, 14);
  }

  // ---------------------------------------------------------------------
  // What the report says.

  /** Blank lines contribute nothing, not even a separator. */
  lemma {:induction false} ReportIgnoresBlank(lines: seq<string>, n: nat)
    requires n > 0
    ensures Report(lines, n) == Report(Text.NonBlank(lines), n)
  {
    if lines != [] {
      var init := lines[..|lines| - 1];
      ReportIgnoresBlank(init, n);
      if lines[|lines| - 1] != "" {
        var r := Text.NonBlank(init) + [lines[|lines| - 1]];
        assert r[..|r| - 1] == Text.NonBlank(init);
      }
    }
  }

  /** The positions found in lines that all hold a marker, as decimal numerals. */
  function Numerals(lines: seq<string>, n: nat): (r: seq<string>)
    requires n > 0
    requires forall k :: 0 <= k < |lines| ==> Marker(lines[k], n).Some?
    ensures |r| == |lines|
  {
    if lines == [] then []
    else Numerals(lines[..|lines| - 1], n) + [Text.NatToString(Marker(lines[|lines| - 1], n).value)]
  }

  /**
   * When every line is non-blank and holds a marker, the report is the
   * positions, in line order, joined with newlines.
   */
  lemma {:induction false} ReportJoinsPositions(lines: seq<string>, n: nat)
    requires n > 0 && |lines| >= 1
    requires forall k :: 0 <= k < |lines| ==> lines[k] != "" && Marker(lines[k], n).Some?
    ensures Report(lines, n) == Text.Join(Numerals(lines, n), '\n')
  {
    var init := lines[..|lines| - 1];
    var last := Text.NatToString(Marker(lines[|lines| - 1], n).value);
    if |init| >= 1 {
      ReportJoinsPositions(init, n);
      Text.JoinAppend(Numerals(init, n), last, '\n');
    }
  }
}
