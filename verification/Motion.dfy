/** Cursor motion by code point and by word over the textpad's exported bytes. */
module Motion {
  import opened Bytes
  import opened Utf8

  datatype CharClass = Space | Word | Other

  function ClassOf(c: U32): CharClass {
    if c == 0x20 || 0x09 <= c <= 0x0D then Space
    else if 0x30 <= c <= 0x39 || 0x41 <= c <= 0x5A || 0x61 <= c <= 0x7A || c == 0x5F then Word
    else Other
  }

  /** The classes of the first `n` code points of `data`. */
  function Classes(data: seq<Byte>, n: nat): (cl: seq<CharClass>)
    ensures |cl| == n
  {
    seq(n, i requires 0 <= i < n => ClassOf(At(data, i)))
  }

  function ClassesOf(t: Text): (cl: seq<CharClass>)
    ensures |cl| == |t|
  {
    seq(|t|, i requires 0 <= i < |t| => ClassOf(t[i]))
  }

  lemma ClassesOfEncoding(t: Text, n: nat)
    requires n <= |t|
    ensures Classes(Encode(t), n) == ClassesOf(t)[..n]
  {
    forall i | 0 <= i < n ensures Classes(Encode(t), n)[i] == ClassesOf(t)[..n][i] {
      FindsCodepoints(t, i);
    }
  }

  // ---------------------------------------------------------------- where word motion stops

  /** The first index at or before `from` such that everything from it up to `from` has class `c`. */
  function RunStart(cl: seq<CharClass>, c: CharClass, from: nat): nat
    requires from <= |cl|
  {
    if from > 0 && cl[from - 1] == c then RunStart(cl, c, from - 1) else from
  }

  function RunEnd(cl: seq<CharClass>, c: CharClass, from: nat): nat
    requires from <= |cl|
    decreases |cl| - from
  {
    if from < |cl| && cl[from] == c then RunEnd(cl, c, from + 1) else from
  }

  lemma {:induction false} RunStartIs(cl: seq<CharClass>, c: CharClass, from: nat, r: nat)
    requires r <= from <= |cl|
    ensures r == RunStart(cl, c, from) <==>
            (forall i :: r <= i < from ==> cl[i] == c) && (r > 0 ==> cl[r - 1] != c)
  {
    if from > 0 && cl[from - 1] == c {
      if r == from {
        RunStartAtMost(cl, c, from - 1);
      } else {
        RunStartIs(cl, c, from - 1, r);
      }
    }
  }

  lemma {:induction false} RunStartAtMost(cl: seq<CharClass>, c: CharClass, from: nat)
    requires from <= |cl|
    ensures RunStart(cl, c, from) <= from
  {
    if from > 0 && cl[from - 1] == c {
      RunStartAtMost(cl, c, from - 1);
    }
  }

  lemma {:induction false} RunEndAtLeast(cl: seq<CharClass>, c: CharClass, from: nat)
    requires from <= |cl|
    ensures from <= RunEnd(cl, c, from) <= |cl|
    decreases |cl| - from
  {
    if from < |cl| && cl[from] == c {
      RunEndAtLeast(cl, c, from + 1);
    }
  }

  function WordLeft(cl: seq<CharClass>, from: nat): nat
    requires from <= |cl|
  {
    RunStartAtMost(cl, Space, from);
    var m := RunStart(cl, Space, from);
    if m == 0 then 0 else RunStart(cl, cl[m - 1], m)
  }

  function WordRight(cl: seq<CharClass>, from: nat): nat
    requires from <= |cl|
  {
    RunEndAtLeast(cl, Space, from);
    var m := RunEnd(cl, Space, from);
    if m == |cl| then m else RunEnd(cl, cl[m], m)
  }

  /** Spaces reach from `m` to `from`, and `to..m` is a whole run of one other class. */
  predicate SpansLeft(cl: seq<CharClass>, to: nat, m: nat, from: nat) {
    && to <= m <= from <= |cl|
    && (forall i :: m <= i < from ==> cl[i] == Space)
    && if m == 0 then to == 0 else
         && cl[m - 1] != Space && to < m
         && (forall i :: to <= i < m ==> cl[i] == cl[m - 1])
         && (to > 0 ==> cl[to - 1] != cl[m - 1])
  }

  predicate SpansRight(cl: seq<CharClass>, from: nat, m: nat, to: nat) {
    && from <= m <= to <= |cl|
    && (forall i :: from <= i < m ==> cl[i] == Space)
    && if m == |cl| then to == m else
         && cl[m] != Space && m < to
         && (forall i :: m <= i < to ==> cl[i] == cl[m])
         && (to < |cl| ==> cl[to] != cl[m])
  }

  /** Word motion to the left stops at `to` exactly when `to` starts the maximal run before the spaces. */
  lemma WordLeftIs(cl: seq<CharClass>, from: nat, to: nat)
    requires from <= |cl|
    ensures to == WordLeft(cl, from) <==> exists m :: SpansLeft(cl, to, m, from)
    ensures WordLeft(cl, from) <= from && (from > 0 ==> WordLeft(cl, from) < from)
  {
    RunStartAtMost(cl, Space, from);
    var m := RunStart(cl, Space, from);
    RunStartIs(cl, Space, from, m);
    if m > 0 {
      var c := cl[m - 1];
      RunStartAtMost(cl, c, m);
      RunStartIs(cl, c, m, RunStart(cl, c, m));
      assert RunStart(cl, c, m) == RunStart(cl, c, m - 1);
      RunStartAtMost(cl, c, m - 1);
    }
    assert SpansLeft(cl, WordLeft(cl, from), m, from);
    if k :| SpansLeft(cl, to, k, from) {
      RunStartIs(cl, Space, from, k);
      if k > 0 {
        RunStartIs(cl, cl[k - 1], k, to);
      }
    }
  }

  function Mirror(cl: seq<CharClass>): (r: seq<CharClass>)
    ensures |r| == |cl|
  {
    seq(|cl|, i requires 0 <= i < |cl| => cl[|cl| - 1 - i])
  }

  lemma {:induction false} MirrorRun(cl: seq<CharClass>, c: CharClass, from: nat)
    requires from <= |cl|
    ensures RunStart(Mirror(cl), c, |cl| - from) == |cl| - RunEnd(cl, c, from)
    decreases |cl| - from
  {
    if from < |cl| && cl[from] == c {
      MirrorRun(cl, c, from + 1);
    }
  }

  /** Word motion to the right is word motion to the left over the reversed text. */
  lemma WordMotionMirrors(cl: seq<CharClass>, from: nat)
    requires from <= |cl|
    ensures WordLeft(Mirror(cl), |cl| - from) == |cl| - WordRight(cl, from)
  {
    MirrorRun(cl, Space, from);
    RunEndAtLeast(cl, Space, from);
    var m := RunEnd(cl, Space, from);
    if m < |cl| {
      MirrorRun(cl, cl[m], m);
    }
  }

  lemma WordRightIs(cl: seq<CharClass>, from: nat, to: nat)
    requires from <= |cl|
    ensures to == WordRight(cl, from) <==> exists m :: SpansRight(cl, from, m, to)
    ensures from <= WordRight(cl, from) <= |cl| && (from < |cl| ==> from < WordRight(cl, from))
  {
    var n, r := |cl|, Mirror(cl);
    WordMotionMirrors(cl, from);
    var stop := WordRight(cl, from);
    WordLeftIs(r, n - from, n - stop);
    var k :| SpansLeft(r, n - stop, k, n - from);
    SpansMirror(cl, from, n - k, stop);
    if m :| SpansRight(cl, from, m, to) {
      SpansMirror(cl, from, m, to);
      WordLeftIs(r, n - from, n - to);
    }
  }

  lemma SpansMirror(cl: seq<CharClass>, from: nat, m: nat, to: nat)
    requires from <= m <= to <= |cl|
    ensures SpansRight(cl, from, m, to) <==> SpansLeft(Mirror(cl), |cl| - to, |cl| - m, |cl| - from)
  {
    var n, r := |cl|, Mirror(cl);
    assert forall i :: 0 <= i < n ==> cl[i] == r[n - 1 - i];
    if SpansLeft(r, n - to, n - m, n - from) {
      forall i | from <= i < m ensures cl[i] == Space { assert r[n - 1 - i] == Space; }
      if m < n {
        forall i | m <= i < to ensures cl[i] == cl[m] { assert r[n - 1 - i] == r[n - m - 1]; }
      }
    }
  }

  /** From the start of a run, moving one word right and one word left comes back. */
  lemma RightThenLeft(cl: seq<CharClass>, from: nat)
    requires from < |cl| && cl[from] != Space && (from > 0 ==> cl[from - 1] != cl[from])
    ensures WordRight(cl, from) <= |cl| && WordLeft(cl, WordRight(cl, from)) == from
  {
    var to := WordRight(cl, from);
    WordRightIs(cl, from, to);
    var m :| SpansRight(cl, from, m, to);
    assert m == from;
    assert SpansLeft(cl, from, to, to);
    WordLeftIs(cl, to, from);
  }

  // ---------------------------------------------------------------- the boundary loops

  function LeftStop(cl: seq<CharClass>, offset: nat, byWord: bool): nat
    requires offset <= |cl|
  {
    if offset == 0 then 0 else if byWord then WordLeft(cl, offset) else offset - 1
  }

  function RightStop(cl: seq<CharClass>, offset: nat, byWord: bool): nat
    requires offset <= |cl|
  {
    if offset == |cl| then offset else if byWord then WordRight(cl, offset) else offset + 1
  }

  lemma {:induction false} RunStartPrefix(cl: seq<CharClass>, c: CharClass, from: nat, n: nat)
    requires from <= n <= |cl|
    ensures RunStart(cl[..n], c, from) == RunStart(cl, c, from)
  {
    if from > 0 && cl[from - 1] == c {
      RunStartPrefix(cl, c, from - 1, n);
    }
  }

  /** Only what lies before the cursor decides where a motion to the left stops. */
  lemma LeftStopPrefix(cl: seq<CharClass>, offset: nat, byWord: bool)
    requires offset <= |cl|
    ensures LeftStop(cl[..offset], offset, byWord) == LeftStop(cl, offset, byWord)
  {
    RunStartPrefix(cl, Space, offset, offset);
    RunStartAtMost(cl, Space, offset);
    var m := RunStart(cl, Space, offset);
    if m > 0 {
      RunStartPrefix(cl, cl[m - 1], m, offset);
    }
  }

  method ClassAt(data: seq<Byte>, k: nat, ghost cl: seq<CharClass>) returns (c: CharClass)
    requires k < |cl| && cl == Classes(data, |cl|)
    ensures c == cl[k]
  {
    var cp := DecodeCodepointAt(data, k);
    return ClassOf(cp);
  }

  /** Both loops of a motion to the left: step back over one class. */
  method BackOver(data: seq<Byte>, from: nat, cls: CharClass, ghost cl: seq<CharClass>) returns (current: nat)
    requires from <= |cl| && cl == Classes(data, |cl|)
    ensures current == RunStart(cl, cls, from) && current <= from
  {
    current := from;
    while current > 0
      invariant current <= from
      invariant RunStart(cl, cls, from) == RunStart(cl, cls, current)
    {
      var here := ClassAt(data, current - 1, cl);
      if here != cls {
        break;
      }
      current := current - 1;
    }
  }

  method AheadOver(data: seq<Byte>, from: nat, count: nat, cls: CharClass, ghost cl: seq<CharClass>)
    returns (current: nat)
    requires from <= count == |cl| && cl == Classes(data, count)
    ensures current == RunEnd(cl, cls, from) && from <= current <= count
  {
    current := from;
    while current < count
      invariant from <= current <= count
      invariant RunEnd(cl, cls, from) == RunEnd(cl, cls, current)
    {
      var here := ClassAt(data, current, cl);
      if here != cls {
        break;
      }
      current := current + 1;
    }
  }

  method PrevBoundary(data: seq<Byte>, offset: nat, byWord: bool) returns (current: nat)
    ensures current == LeftStop(Classes(data, offset), offset, byWord)
  {
    if offset == 0 {
      return 0;
    }
    if !byWord {
      return offset - 1;
    }
    ghost var cl := Classes(data, offset);
    current := BackOver(data, offset, Space, cl);
    if current == 0 {
      return 0;
    }
    var cls := ClassAt(data, current - 1, cl);
    current := BackOver(data, current, cls, cl);
  }

  method NextBoundary(data: seq<Byte>, count: nat, offset: nat, byWord: bool) returns (current: nat)
    ensures current == if offset >= count then count else RightStop(Classes(data, count), offset, byWord)
  {
    if offset >= count {
      return count;
    }
    if !byWord {
      return offset + 1;
    }
    ghost var cl := Classes(data, count);
    current := AheadOver(data, offset, count, Space, cl);
    if current >= count {
      return count;
    }
    var cls := ClassAt(data, current, cl);
    current := AheadOver(data, current, count, cls, cl);
  }
}
