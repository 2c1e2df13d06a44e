/** Deriving the UTF-8 copy, and the bytes outside comments it must not change. */
module Output {
  import opened Basics
  import opened DecodeUnits
  import opened DecodeSource
  import opened ScanState
  import Utf8

  const REPLACE_BYTE: Byte := '?' as int

  predicate Covered(intervals: seq<(nat, nat)>, i: nat) {
    exists j :: 0 <= j < |intervals| && intervals[j].0 <= i < intervals[j].1
  }

  /** Non-empty ranges of units in order, none reaching past `n`. */
  ghost predicate WellFormed(intervals: seq<(nat, nat)>, n: nat) {
    && (forall j :: 0 <= j < |intervals| ==> intervals[j].0 < intervals[j].1 <= n)
    && (forall j, k :: 0 <= j < k < |intervals| ==> intervals[j].1 <= intervals[k].0)
  }

  /** A unit of comment content as it is written. */
  function Rewrite(u: Unit, replace: bool): Unit {
    if u.isOpaque || (NonAscii(u.ch) && replace && ReplacementReason(u.ch).Some?) then
      Unit('?', [REPLACE_BYTE], false)
    else if NonAscii(u.ch) then Unit(u.ch, Utf8.Encode(u.ch), false)
    else u
  }

  function OutUnits(us: seq<Unit>, intervals: seq<(nat, nat)>, replace: bool): (r: seq<Unit>)
    ensures |r| == |us|
    ensures forall i :: 0 <= i < |us| ==> r[i] == if Covered(intervals, i) then Rewrite(us[i], replace) else us[i]
  {
    seq(|us|, i requires 0 <= i < |us| => if Covered(intervals, i) then Rewrite(us[i], replace) else us[i])
  }

  /** Where interval `j - 1` ended. */
  function DoneBefore(intervals: seq<(nat, nat)>, j: nat): nat
    requires j <= |intervals|
  {
    if j == 0 then 0 else intervals[j - 1].1
  }

  lemma GapIsUncovered(intervals: seq<(nat, nat)>, n: nat, j: nat, i: nat)
    requires WellFormed(intervals, n) && j <= |intervals|
    requires DoneBefore(intervals, j) <= i && (j < |intervals| ==> i < intervals[j].0)
    ensures !Covered(intervals, i)
  {
    if Covered(intervals, i) {
      var k :| 0 <= k < |intervals| && intervals[k].0 <= i < intervals[k].1;
    }
  }

  lemma GapIsKept(us: seq<Unit>, intervals: seq<(nat, nat)>, replace: bool, j: nat, end: nat)
    requires WellFormed(intervals, |us|) && j <= |intervals|
    requires end == if j < |intervals| then intervals[j].0 else |us|
    ensures DoneBefore(intervals, j) <= end <= |us|
    ensures OutUnits(us, intervals, replace)[DoneBefore(intervals, j)..end] == us[DoneBefore(intervals, j)..end]
  {
    var out := OutUnits(us, intervals, replace);
    forall i | DoneBefore(intervals, j) <= i < end
      ensures out[i] == us[i]
    {
      GapIsUncovered(intervals, |us|, j, i);
    }
  }

  /** `_build_output`. Only the explicit replacement mode decodes opaque units. */
  method BuildOutput(data: seq<Byte>, us: seq<Unit>, offsets: seq<(nat, nat)>, intervals: seq<(nat, nat)>,
                     prefix: nat, replace: bool)
    returns (output: seq<Byte>)
    requires Laid(data, prefix, us, offsets) && WellFormed(intervals, |us|)
    requires forall i :: 0 <= i < |us| && us[i].isOpaque ==> replace
    ensures output == data[..prefix] + Bytes(OutUnits(us, intervals, replace))
  {
    hide *;
    ghost var out := OutUnits(us, intervals, replace);
    NothingBefore(data, prefix, us, offsets, intervals, out);
    output := data[..prefix];
    var position := prefix;
    assert out[..|us|] == out;
    for j := 0 to |intervals|
      invariant position == Offset(prefix, us, DoneBefore(intervals, j))
      invariant output == data[..prefix] + Bytes(out[..DoneBefore(intervals, j)])
    {
      IntervalOffsets(data, prefix, us, offsets, intervals, j);
      var (first, last) := intervals[j];
      var start := offsets[first].0;
      var end := offsets[last - 1].1;
      CopiedGap(data, prefix, us, intervals, replace, j, first);
      AppendedTo(data[..prefix], Bytes(out[..DoneBefore(intervals, j)]), data[position..start]);
      if start > position {
        output := output + data[position..start];
      }
      output := WriteContent(data, us, offsets, intervals, prefix, replace, j, output);
      position := if position > end then position else end;
    }
    CopiedGap(data, prefix, us, intervals, replace, |intervals|, |us|);
    AppendedTo(data[..prefix], Bytes(out[..DoneBefore(intervals, |intervals|)]), data[position..]);
    if position < |data| {
      output := output + data[position..];
    }
  }

  lemma AppendedTo(a: seq<Byte>, b: seq<Byte>, c: seq<Byte>)
    ensures a + (b + c) == a + b + c && a + b + [] == a + b
  {
  }

  lemma NothingBefore(data: seq<Byte>, prefix: nat, us: seq<Unit>, offsets: seq<(nat, nat)>, intervals: seq<(nat, nat)>, out: seq<Unit>)
    requires Laid(data, prefix, us, offsets) && WellFormed(intervals, |us|)
    ensures prefix <= |data| && data[prefix..] == Bytes(us) && |offsets| == |us|
    ensures forall j :: 0 <= j <= |intervals| ==> DoneBefore(intervals, j) <= |us|
    ensures Offset(prefix, us, DoneBefore(intervals, 0)) == prefix && Bytes(out[..DoneBefore(intervals, 0)]) == []
  {
    assert us[..0] == [] && out[..0] == [];
  }

  /** The byte range of interval `j`, behind everything before it. */
  lemma IntervalOffsets(data: seq<Byte>, prefix: nat, us: seq<Unit>, offsets: seq<(nat, nat)>, intervals: seq<(nat, nat)>, j: nat)
    requires Laid(data, prefix, us, offsets) && WellFormed(intervals, |us|) && j < |intervals|
    ensures var (first, last) := intervals[j];
            && DoneBefore(intervals, j) <= first < last <= |us| == |offsets|
            && DoneBefore(intervals, j + 1) == last
            && offsets[first].0 == Offset(prefix, us, first) && offsets[last - 1].1 == Offset(prefix, us, last)
            && Offset(prefix, us, DoneBefore(intervals, j)) <= Offset(prefix, us, first) <= Offset(prefix, us, last) <= |data|
  {
    var (first, last) := intervals[j];
    SliceBytes(data, prefix, us, DoneBefore(intervals, j), first);
    SliceBytes(data, prefix, us, first, last);
  }

  /** Copying the source bytes between two intervals writes their output units. */
  lemma CopiedGap(data: seq<Byte>, prefix: nat, us: seq<Unit>, intervals: seq<(nat, nat)>, replace: bool, j: nat, end: nat)
    requires prefix <= |data| && data[prefix..] == Bytes(us) && WellFormed(intervals, |us|) && j <= |intervals|
    requires end == if j < |intervals| then intervals[j].0 else |us|
    ensures var done, out := DoneBefore(intervals, j), OutUnits(us, intervals, replace);
            && done <= end <= |us|
            && Offset(prefix, us, done) <= Offset(prefix, us, end) <= |data|
            && (end == |us| ==> Offset(prefix, us, end) == |data|)
            && Bytes(out[..end]) == Bytes(out[..done]) + data[Offset(prefix, us, done)..Offset(prefix, us, end)]
  {
    var done, out := DoneBefore(intervals, j), OutUnits(us, intervals, replace);
    GapIsKept(us, intervals, replace, j, end);
    SliceBytes(data, prefix, us, done, end);
    ExtendBytes(out, done, end);
  }

  /** The inner loop: the content of interval `j`, unit by unit. */
  method WriteContent(data: seq<Byte>, us: seq<Unit>, offsets: seq<(nat, nat)>, intervals: seq<(nat, nat)>,
                      prefix: nat, replace: bool, j: nat, before: seq<Byte>)
    returns (output: seq<Byte>)
    requires Laid(data, prefix, us, offsets) && WellFormed(intervals, |us|) && j < |intervals|
    requires forall i :: 0 <= i < |us| && us[i].isOpaque ==> replace
    requires before == data[..prefix] + Bytes(OutUnits(us, intervals, replace)[..intervals[j].0])
    ensures output == data[..prefix] + Bytes(OutUnits(us, intervals, replace)[..intervals[j].1])
  {
    ghost var out := OutUnits(us, intervals, replace);
    output := before;
    hide Bytes, Covered, OutUnits;
    for i := intervals[j].0 to intervals[j].1
      invariant output == data[..prefix] + Bytes(out[..i])
    {
      RewrittenUnit(data, prefix, us, intervals, replace, j, i);
      var byteStart, byteEnd := offsets[i].0, offsets[i].1;
      if us[i].isOpaque {
        output := output + [REPLACE_BYTE];
      } else if NonAscii(us[i].ch) {
        if replace && ReplacementReason(us[i].ch).Some? {
          output := output + [REPLACE_BYTE];
        } else {
          output := output + Utf8.Encode(us[i].ch);
        }
      } else {
        output := output + data[byteStart..byteEnd];
      }
    }
  }

  lemma RewrittenUnit(data: seq<Byte>, prefix: nat, us: seq<Unit>, intervals: seq<(nat, nat)>, replace: bool, j: nat, i: nat)
    requires prefix <= |data| && data[prefix..] == Bytes(us) && WellFormed(intervals, |us|)
    requires j < |intervals| && intervals[j].0 <= i < intervals[j].1
    ensures var out := OutUnits(us, intervals, replace);
            i < |us| && Bytes(out[..i + 1]) == Bytes(out[..i]) + Rewrite(us[i], replace).bytes
    ensures Offset(prefix, us, i) <= Offset(prefix, us, i + 1) <= |data|
    ensures data[Offset(prefix, us, i)..Offset(prefix, us, i + 1)] == us[i].bytes
  {
    assert Covered(intervals, i);
    OffsetStep(prefix, OutUnits(us, intervals, replace), i);
    SliceBytes(data, prefix, us, i, i + 1);
    OneUnit(us, i);
  }

  lemma OneUnit(us: seq<Unit>, i: nat)
    requires i < |us|
    ensures Bytes(us[i..i + 1]) == us[i].bytes
  {
    assert us[i..i + 1] == [us[i]];
    assert Bytes([us[i]]) == us[i].bytes + Bytes([]);
  }

  lemma ExtendBytes(us: seq<Unit>, a: nat, b: nat)
    requires a <= b <= |us|
    ensures Bytes(us[..b]) == Bytes(us[..a]) + Bytes(us[a..b])
  {
    assert us[..b] == us[..a] + us[a..b];
    BytesAppend(us[..a], us[a..b]);
  }

  function NonEmpty(b: seq<Byte>): seq<seq<Byte>> {
    if b == [] then [] else [b]
  }

  /** The byte segments outside the intervals, from interval `j` on. */
  function SegmentsFrom(us: seq<Unit>, intervals: seq<(nat, nat)>, j: nat): seq<seq<Byte>>
    requires j <= |intervals|
    requires forall k :: 0 <= k < |intervals| ==> intervals[k].0 <= intervals[k].1 <= |us|
    requires forall k :: 0 < k < |intervals| ==> intervals[k - 1].1 <= intervals[k].0
    decreases |intervals| - j
  {
    if j == |intervals| then NonEmpty(Bytes(us[DoneBefore(intervals, j)..]))
    else NonEmpty(Bytes(us[DoneBefore(intervals, j)..intervals[j].0])) + SegmentsFrom(us, intervals, j + 1)
  }

  /** What the outside-comment digest is taken over: the digest of a list of
      length-prefixed segments stands for the list. */
  function Outside(head: seq<Byte>, us: seq<Unit>, intervals: seq<(nat, nat)>): seq<seq<Byte>>
    requires forall k :: 0 <= k < |intervals| ==> intervals[k].0 <= intervals[k].1 <= |us|
    requires forall k :: 0 < k < |intervals| ==> intervals[k - 1].1 <= intervals[k].0
  {
    NonEmpty(head) + SegmentsFrom(us, intervals, 0)
  }

  /** `_outside_digest` up to the hash. */
  method OutsideSegments(data: seq<Byte>, us: seq<Unit>, offsets: seq<(nat, nat)>, intervals: seq<(nat, nat)>, prefix: nat)
    returns (segments: seq<seq<Byte>>)
    requires Laid(data, prefix, us, offsets) && WellFormed(intervals, |us|)
    ensures segments == Outside(data[..prefix], us, intervals)
  {
    assert us[..0] == [];
    assert Offset(prefix, us, 0) == prefix;
    hide Offset, Bytes;
    segments := [];
    var position := 0;
    if prefix > 0 {
      segments := [data[..prefix]];
      position := prefix;
    }
    for j := 0 to |intervals|
      invariant position == Offset(prefix, us, DoneBefore(intervals, j))
      invariant segments + SegmentsFrom(us, intervals, j) == Outside(data[..prefix], us, intervals)
    {
      var (first, last) := intervals[j];
      var start := offsets[first].0;
      var end := offsets[last - 1].1;
      SegmentStep(data, prefix, us, intervals, j, segments);
      if start > position {
        segments := segments + [data[position..start]];
      }
      position := if position > end then position else end;
    }
    SegmentEnd(data, prefix, us, intervals, segments);
    if position < |data| {
      segments := segments + [data[position..]];
    }
  }

  lemma SegmentStep(data: seq<Byte>, prefix: nat, us: seq<Unit>, intervals: seq<(nat, nat)>, j: nat, segments: seq<seq<Byte>>)
    requires prefix <= |data| && data[prefix..] == Bytes(us) && WellFormed(intervals, |us|) && j < |intervals|
    ensures var done := DoneBefore(intervals, j);
            var position, start := Offset(prefix, us, done), Offset(prefix, us, intervals[j].0);
            && position <= start <= Offset(prefix, us, intervals[j].1) && start <= |data|
            && segments + SegmentsFrom(us, intervals, j) ==
               (if start > position then segments + [data[position..start]] else segments)
               + SegmentsFrom(us, intervals, j + 1)
  {
    var done := DoneBefore(intervals, j);
    var (first, last) := intervals[j];
    GapIsKept(us, intervals, false, j, first);
    assert first < last <= |us|;
    hide Offset, Bytes, OutUnits;
    SliceBytes(data, prefix, us, done, first);
    SliceBytes(data, prefix, us, first, last);
    var gap := Bytes(us[done..first]);
    assert segments + (NonEmpty(gap) + SegmentsFrom(us, intervals, j + 1)) ==
           segments + NonEmpty(gap) + SegmentsFrom(us, intervals, j + 1);
  }

  lemma SegmentEnd(data: seq<Byte>, prefix: nat, us: seq<Unit>, intervals: seq<(nat, nat)>, segments: seq<seq<Byte>>)
    requires prefix <= |data| && data[prefix..] == Bytes(us) && WellFormed(intervals, |us|)
    ensures var position := Offset(prefix, us, DoneBefore(intervals, |intervals|));
            && position <= |data|
            && segments + SegmentsFrom(us, intervals, |intervals|) ==
               if position < |data| then segments + [data[position..]] else segments
  {
    hide Offset, Bytes, WellFormed, OutUnits;
    var done := DoneBefore(intervals, |intervals|);
    GapIsKept(us, intervals, false, |intervals|, |us|);
    TailBytes(data, prefix, us, done);
  }

  lemma TailBytes(data: seq<Byte>, prefix: nat, us: seq<Unit>, done: nat)
    requires prefix <= |data| && data[prefix..] == Bytes(us) && done <= |us|
    ensures Offset(prefix, us, done) <= |data|
    ensures data[Offset(prefix, us, done)..] == Bytes(us[done..])
  {
    SliceBytes(data, prefix, us, done, |us|);
    assert us[done..] == us[done..|us|];
    assert data[Offset(prefix, us, done)..|data|] == data[Offset(prefix, us, done)..];
  }

  /** Rewriting comment content leaves every outside segment as it was. */
  lemma {:induction false} OutsideIsKept(us: seq<Unit>, intervals: seq<(nat, nat)>, replace: bool, j: nat)
    requires WellFormed(intervals, |us|) && j <= |intervals|
    ensures SegmentsFrom(OutUnits(us, intervals, replace), intervals, j) == SegmentsFrom(us, intervals, j)
    decreases |intervals| - j
  {
    hide OutUnits, Bytes, NonEmpty;
    if j < |intervals| {
      GapIsKept(us, intervals, replace, j, intervals[j].0);
      OutsideIsKept(us, intervals, replace, j + 1);
    } else {
      GapIsKept(us, intervals, replace, j, |us|);
      var out, done := OutUnits(us, intervals, replace), DoneBefore(intervals, j);
      assert out[done..] == out[done..|us|] && us[done..] == us[done..|us|];
    }
  }
}
