/** Splicing, by positions in the text: which characters belong to a backslash-newline
    splice, and which texts hold a form that is refused. */
module SpliceExact {
  import opened Basics
  import opened LogicalView
  import opened Regions

  /** The backslash or the newline of a splice. */
  predicate IsSpliced(text: string, k: nat) {
    || (k + 1 < |text| && text[k] == '\\' && Newline(text[k + 1]))
    || EndsSplice(text, k)
  }

  /** The newline of a splice: `\r` and `\n` together are one. */
  predicate EndsSplice(text: string, k: nat) {
    || (0 < k < |text| && text[k - 1] == '\\' && Newline(text[k]))
    || (1 < k < |text| && text[k - 2] == '\\' && text[k - 1] == '\r' && text[k] == '\n')
  }

  /** A backslash, blanks, and the newline at `w`. */
  predicate BlanksBehind(text: string, i: nat, w: nat) {
    && i + 1 < w < |text| && text[i] == '\\' && Newline(text[w])
    && forall k :: i < k < w ==> Blank(text[k])
  }

  ghost predicate IsRefused(text: string, i: nat) {
    exists w :: BlanksBehind(text, i, w)
  }

  predicate Ascending(a: seq<nat>) {
    forall i, j :: 0 <= i < j < |a| ==> a[i] < a[j]
  }

  /** The positions from `from` on that are in no splice, in order. */
  ghost predicate IsView(text: string, from: nat, physical: seq<nat>) {
    Ascending(physical) && forall k: nat :: k in physical <==> from <= k < |text| && !IsSpliced(text, k)
  }

  /** What splicing from `from` on yields: the first refused form, or the view. */
  ghost predicate IsSplice(text: string, from: nat, v: View) {
    match v
    case HSpaceSplice(at) => from <= at && IsRefused(text, at) && forall i :: from <= i < at ==> !IsRefused(text, i)
    case Spliced(physical) => IsView(text, from, physical) && forall i: nat :: from <= i ==> !IsRefused(text, i)
  }

  lemma {:induction false} BlanksEnd(text: string, p: nat)
    requires p <= |text|
    ensures var w := HSpaceEnd(text, p);
            (forall k :: p <= k < w ==> Blank(text[k])) && (w < |text| ==> !Blank(text[w]))
    decreases |text| - p
  {
    if p < |text| && IsHSpace(text[p]) {
      BlanksEnd(text, p + 1);
    }
  }

  lemma RefusedIs(text: string, i: nat)
    requires i < |text|
    ensures IsRefused(text, i) <==> text[i] == '\\' && RefusedSplice(text, i)
  {
    BlanksEnd(text, i + 1);
    var end := HSpaceEnd(text, i + 1);
    if text[i] == '\\' && RefusedSplice(text, i) {
      assert BlanksBehind(text, i, end);
    }
    if w :| BlanksBehind(text, i, w) {
      assert w <= end;
    }
  }

  lemma ViewInFront(text: string, i: nat, rest: seq<nat>)
    requires i < |text| && !IsSpliced(text, i) && IsView(text, i + 1, rest)
    ensures IsView(text, i, [i] + rest)
  {
    var all := [i] + rest;
    assert forall j :: 0 < j < |all| ==> all[j] == rest[j - 1] && rest[j - 1] in rest;
    assert forall k :: k in all <==> k == i || k in rest;
  }

  lemma ViewBehind(text: string, i: nat, n: nat, physical: seq<nat>)
    requires i + n <= |text| && IsView(text, i + n, physical)
    requires forall k :: i <= k < i + n ==> IsSpliced(text, k)
    ensures IsView(text, i, physical)
  {
  }

  /** The newline behind a backslash ends its splice, and nothing else does. */
  lemma SpliceEnds(text: string, i: nat)
    requires i < |text| && !EndsSplice(text, i)
    ensures var n := NewlineLength(text, i + 1);
            if text[i] == '\\' && n > 0 then
              (forall k :: i <= k < i + 1 + n ==> IsSpliced(text, k)) && !EndsSplice(text, i + 1 + n)
            else !IsSpliced(text, i) && !EndsSplice(text, i + 1)
  {
    var n := NewlineLength(text, i + 1);
    if n == 2 {
      assert text[i + 2] == '\n' && text[i + 1] == '\r';
    }
  }

  lemma {:induction false} SpliceIs(text: string, i: nat)
    requires i <= |text| && !EndsSplice(text, i)
    ensures IsSplice(text, i, Splice(text, i))
    decreases |text| - i
  {
    if i < |text| {
      RefusedIs(text, i);
      SpliceEnds(text, i);
      var n := if text[i] == '\\' then NewlineLength(text, i + 1) else 0;
      hide IsSpliced, EndsSplice, IsRefused, RefusedSplice;
      if !IsRefused(text, i) {
        SpliceIs(text, i + 1 + n);
        Refusals(text, i, n);
        hide IsView;
        var v := Splice(text, i + 1 + n);
        if v.Spliced? {
          if n > 0 {
            ViewBehind(text, i, 1 + n, v.physical);
          } else {
            ViewInFront(text, i, v.physical);
          }
        }
      }
    } else {
      assert forall k: nat :: |text| <= k ==> !IsRefused(text, k);
    }
  }

  /** A newline refuses nothing. */
  lemma Refusals(text: string, i: nat, n: nat)
    requires i < |text| && n == (if text[i] == '\\' then NewlineLength(text, i + 1) else 0)
    ensures forall k :: i < k < i + 1 + n ==> !IsRefused(text, k)
  {
  }

  lemma NothingIsSpliced(text: string)
    ensures !EndsSplice(text, 0)
  {
  }

  /** Two ascending lists of the same positions are one. */
  lemma {:induction false} SameList(a: seq<nat>, b: seq<nat>)
    requires Ascending(a) && Ascending(b) && forall k: nat :: k in a <==> k in b
    ensures a == b
    decreases |a|
  {
    if a == [] {
      HasFirst(b);
    } else {
      assert a[0] in a && b != [];
      assert b[0] in b && a[0] in b && b[0] in a;
      var i :| 0 <= i < |a| && a[i] == b[0];
      var j :| 0 <= j < |b| && b[j] == a[0];
      assert a[0] == b[0];
      forall k: nat
        ensures k in a[1..] <==> k in b[1..]
      {
        InTail(a, k);
        InTail(b, k);
      }
      SameList(a[1..], b[1..]);
      assert a == [a[0]] + a[1..] && b == [b[0]] + b[1..];
    }
  }

  lemma HasFirst(a: seq<nat>)
    ensures a == [] || exists k: nat :: k in a
  {
    if a != [] {
      assert a[0] in a;
    }
  }

  lemma InTail(a: seq<nat>, k: nat)
    requires a != [] && Ascending(a)
    ensures k in a[1..] <==> k in a && k != a[0]
  {
    if k in a && k != a[0] {
      var i :| 0 <= i < |a| && a[i] == k;
      assert a[1..][i - 1] == k;
    }
  }

  /** A text is refused exactly if a backslash is followed by blanks and a newline, and
      then the first one is reported; otherwise exactly the splices are left out. */
  lemma SplicedExactly(text: string, physical: seq<nat>)
    ensures Splice(text, 0).HSpaceSplice? <==> exists i :: IsRefused(text, i)
    ensures Splice(text, 0).HSpaceSplice? ==>
              var at := Splice(text, 0).at; IsRefused(text, at) && forall i :: 0 <= i < at ==> !IsRefused(text, i)
    ensures Splice(text, 0) == Spliced(physical) <==>
              IsView(text, 0, physical) && forall i: nat :: !IsRefused(text, i)
  {
    NothingIsSpliced(text);
    SpliceIs(text, 0);
    hide Splice, IsRefused, IsSpliced;
    var v := Splice(text, 0);
    if v.Spliced? && IsView(text, 0, physical) {
      SameList(v.physical, physical);
    }
  }
}
