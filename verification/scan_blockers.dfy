/** Which scans block a file: an alarm always blocks legacy text and opaque units,
    and nothing blocks text that is already its own UTF-8 encoding. */
module ScanBlockers {
  import opened Basics
  import opened DecodeUnits
  import opened Findings
  import opened Lexer
  import opened ScanState
  import opened ScanFacts
  import Utf8

  lemma {:induction false} AlarmBlocks(src: Source, st: State, events: seq<Event>, k: nat)
    requires Wired(src) && Alarm(k) in events && k < |src.physical|
    requires src.legacy || src.units[src.physical[k]].isOpaque
    ensures ApplyAll(src, st, events).blockerCount > st.blockerCount
    decreases |events|
  {
    var next := Apply(src, st, events[0]);
    ApplyKeeps(src, st, events[0]);
    if events[0] == Alarm(k) {
      assert next.blockerCount > st.blockerCount;
      ApplyAllKeeps(src, next, events[1..]);
    } else {
      hide Apply;
      AlarmBlocks(src, next, events[1..], k);
    }
  }

  /** No blocker was counted, kept or suppressed, and nothing was replaced. */
  predicate Calm(st: State) {
    && st.blockerCount == 0 && st.blockerSuppressed == 0 && !HasBlocker(st.findings)
    && st.records == [] && !st.overflow
  }

  lemma AddCalm(st: State, f: Finding)
    requires Calm(st) && f.severity != Blocker
    ensures Calm(Add(st, f))
  {
    var r := Add(st, f);
    forall i | 0 <= i < |r.findings|
      ensures r.findings[i].severity != Blocker
    {
      assert i < |st.findings| ==> r.findings[i] == st.findings[i];
    }
  }

  lemma {:induction false} AddAllCalm(st: State, fs: seq<Finding>)
    requires Calm(st) && !HasBlocker(fs)
    ensures Calm(AddAll(st, fs))
    decreases |fs|
  {
    if fs != [] {
      assert fs[0].severity != Blocker;
      AddCalm(st, fs[0]);
      forall i | 0 <= i < |fs[1..]|
        ensures fs[1..][i].severity != Blocker
      {
        assert fs[1..][i] == fs[i + 1];
      }
      AddAllCalm(Add(st, fs[0]), fs[1..]);
    }
  }

  /** Text whose every unit is its character's UTF-8 encoding, rewritten strictly. */
  ghost predicate PlainUtf8(src: Source) {
    && !src.legacy && !src.replace && !src.doubleByte
    && forall i :: 0 <= i < |src.units| ==> !src.units[i].isOpaque && src.units[i].bytes == Utf8.Encode(src.units[i].ch)
  }

  lemma ContentIsCalm(src: Source, i: nat)
    requires Wired(src) && PlainUtf8(src) && i < |src.units| && NonAscii(src.units[i].ch)
    ensures !HasBlocker(ContentFindings(src, i, false))
  {
    assert !EndsInBackslash(src.units[i].bytes);
  }

  lemma MarkCalm(src: Source, st: State, k: nat)
    requires Wired(src) && PlainUtf8(src) && k < |src.physical| && Calm(st)
    ensures Calm(MarkContent(src, st, k))
  {
    var i := src.physical[k];
    assert i < |src.units| && !src.units[i].isOpaque;
    if NonAscii(src.units[i].ch) {
      ContentIsCalm(src, i);
      hide Wired, ContentFindings, HasBlocker;
      AddAllCalm(st.(commentNonAscii := st.commentNonAscii + 1), ContentFindings(src, i, false));
    }
  }

  lemma {:induction false} MarkRangeCalm(src: Source, st: State, a: nat, b: nat)
    requires Wired(src) && PlainUtf8(src) && b <= |src.physical| && Calm(st)
    ensures Calm(MarkRange(src, st, a, b))
    decreases b - a
  {
    if a < b {
      MarkCalm(src, st, a);
      hide MarkContent, Calm;
      MarkRangeCalm(src, MarkContent(src, st, a), a + 1, b);
    }
  }

  lemma ApplyCalm(src: Source, st: State, ev: Event)
    requires Wired(src) && PlainUtf8(src) && Calm(st)
    ensures Calm(Apply(src, st, ev))
  {
    match ev {
      case Comment(a, b) =>
        if b <= |src.physical| {
          MarkRangeCalm(src, st, a, b);
        }
      case Alarm(a) =>
        if a < |src.physical| {
          var i := src.physical[a];
          assert i < |src.units| && !src.units[i].isOpaque;
          AddCalm(st, Finding(NON_COMMENT_NON_ASCII, Warning, Some(src.offsets[i].0)));
        }
    }
  }

  lemma {:induction false} ApplyAllCalm(src: Source, st: State, events: seq<Event>)
    requires Wired(src) && PlainUtf8(src) && Calm(st)
    ensures Calm(ApplyAll(src, st, events))
    decreases |events|
  {
    if events != [] {
      ApplyCalm(src, st, events[0]);
      hide Apply, Calm;
      ApplyAllCalm(src, Apply(src, st, events[0]), events[1..]);
    }
  }
}
