/** Translation phase 2 of ISO/IEC 9899:2018 section 5.1.1.2: the characters left
    after backslash-newline splices, as indices into the decoded text. */
module LogicalView {
  import opened Basics

  /** The surviving indices, or the backslash of a form the helper refuses. */
  datatype View = Spliced(physical: seq<nat>) | HSpaceSplice(at: nat)

  function HSpaceEnd(text: string, p: nat): (e: nat)
    requires p <= |text|
    ensures p <= e <= |text|
    decreases |text| - p
  {
    if p < |text| && IsHSpace(text[p]) then HSpaceEnd(text, p + 1) else p
  }

  /** Length of the newline at `p`, 0 when there is none. */
  function NewlineLength(text: string, p: nat): (n: nat)
    requires p <= |text|
    ensures p + n <= |text|
  {
    if p == |text| then 0
    else if text[p] == '\n' then 1
    else if text[p] == '\r' then if p + 1 < |text| && text[p + 1] == '\n' then 2 else 1
    else 0
  }

  predicate RefusedSplice(text: string, i: nat)
    requires i < |text|
  {
    var w := HSpaceEnd(text, i + 1);
    w > i + 1 && w < |text| && IsNewline(text[w])
  }

  function Splice(text: string, i: nat): View
    requires i <= |text|
    decreases |text| - i
  {
    if i == |text| then Spliced([])
    else if text[i] == '\\' && RefusedSplice(text, i) then HSpaceSplice(i)
    else if text[i] == '\\' && NewlineLength(text, i + 1) > 0 then Splice(text, i + 1 + NewlineLength(text, i + 1))
    else Behind([i], Splice(text, i + 1))
  }

  /** A view behind indices already kept. */
  function Behind(kept: seq<nat>, v: View): View {
    match v
    case Spliced(rest) => Spliced(kept + rest)
    case HSpaceSplice(_) => v
  }

  lemma BehindBoth(a: seq<nat>, b: seq<nat>, v: View)
    ensures Behind(a, Behind(b, v)) == Behind(a + b, v)
    ensures Behind([], v) == v && Behind(a, Spliced([])) == Spliced(a)
  {
    if v.Spliced? {
      assert a + (b + v.physical) == a + b + v.physical && [] + v.physical == v.physical;
    }
    assert a + [] == a;
  }

  /** `t` is `s` with some non-ASCII characters replaced by question marks. */
  predicate Masked(s: string, t: string) {
    |s| == |t| && forall k :: 0 <= k < |s| ==> t[k] == s[k] || (NonAscii(s[k]) && t[k] == '?')
  }

  lemma {:induction false} HSpaceEndMasked(s: string, t: string, p: nat)
    requires Masked(s, t) && p <= |s|
    ensures HSpaceEnd(s, p) == HSpaceEnd(t, p)
    decreases |s| - p
  {
    if p < |s| {
      HSpaceEndMasked(s, t, p + 1);
    }
  }

  lemma {:induction false} SpliceMasked(s: string, t: string, i: nat)
    requires Masked(s, t) && i <= |s|
    ensures Splice(s, i) == Splice(t, i)
    decreases |s| - i
  {
    if i < |s| {
      HSpaceEndMasked(s, t, i + 1);
      assert NewlineLength(s, i + 1) == NewlineLength(t, i + 1);
      SpliceMasked(s, t, i + 1);
      SpliceMasked(s, t, i + 1 + NewlineLength(s, i + 1));
    }
  }

  /** `physical` lists increasing indices of `text[from..]` and omits only ASCII. */
  ghost predicate Keeps(text: string, from: nat, physical: seq<nat>) {
    && (forall a :: 0 <= a < |physical| ==> from <= physical[a] < |text|)
    && (forall a, b :: 0 <= a < b < |physical| ==> physical[a] < physical[b])
    && (forall k :: from <= k < |text| && NonAscii(text[k]) ==> k in physical)
  }

  lemma KeepsSkipping(text: string, i: nat, n: nat, rest: seq<nat>)
    requires i < |text| && n == (if text[i] == '\\' then NewlineLength(text, i + 1) else 0)
    requires Keeps(text, i + 1 + n, rest)
    ensures Keeps(text, i, if n == 0 then [i] + rest else rest)
  {
  }

  lemma {:induction false} SpliceKeeps(text: string, i: nat)
    requires i <= |text|
    ensures Splice(text, i).Spliced? ==> Keeps(text, i, Splice(text, i).physical)
    decreases |text| - i
  {
    if i < |text| && !RefusedSplice(text, i) {
      var n := if text[i] == '\\' then NewlineLength(text, i + 1) else 0;
      SpliceKeeps(text, i + 1 + n);
      var v := Splice(text, i + 1 + n);
      if v.Spliced? {
        hide Splice, HSpaceEnd, RefusedSplice;
        KeepsSkipping(text, i, n, v.physical);
      }
    } else if i < |text| {
      SpliceKeeps(text, i + 1);
    }
  }

  lemma RefusedIsBackslash(text: string, i: nat)
    requires i <= |text| && Splice(text, i).HSpaceSplice?
    ensures i <= Splice(text, i).at < |text| && text[Splice(text, i).at] == '\\'
    decreases |text| - i
  {
  }

  /** `_logical_view`. */
  method FindLogicalView(text: string) returns (v: View)
    ensures v == Splice(text, 0)
  {
    var physical: seq<nat> := [];
    var index := 0;
    var length := |text|;
    BehindBoth([], [], Splice(text, 0));
    while index < length
      invariant 0 <= index <= length
      invariant Splice(text, 0) == Behind(physical, Splice(text, index))
    {
      var character := text[index];
      if character == '\\' {
        var cursor := index + 1;
        var whitespaceEnd := cursor;
        while whitespaceEnd < length && IsHSpace(text[whitespaceEnd])
          invariant cursor <= whitespaceEnd <= length
          invariant HSpaceEnd(text, cursor) == HSpaceEnd(text, whitespaceEnd)
        {
          whitespaceEnd := whitespaceEnd + 1;
        }
        if whitespaceEnd > cursor && whitespaceEnd < length && IsNewline(text[whitespaceEnd]) {
          return HSpaceSplice(index);
        }
        if cursor < length && text[cursor] == '\n' {
          index := cursor + 1;
          continue;
        }
        if cursor < length && text[cursor] == '\r' {
          if cursor + 1 < length && text[cursor + 1] == '\n' {
            index := cursor + 2;
          } else {
            index := cursor + 1;
          }
          continue;
        }
      }
      BehindBoth(physical, [index], Splice(text, index + 1));
      physical := physical + [index];
      index := index + 1;
    }
    BehindBoth(physical, [], Splice(text, index));
    return Spliced(physical);
  }
}
