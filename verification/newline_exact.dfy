/** Line endings by positions: what the three counts count. */
module NewlineExact {
  import opened Basics
  import opened Newlines

  predicate IsCrLf(b: seq<Byte>, k: nat) {
    k + 1 < |b| && b[k] == 13 && b[k + 1] == 10
  }

  /** A newline that no carriage return stands in front of. */
  predicate IsLf(b: seq<Byte>, k: nat) {
    k < |b| && b[k] == 10 && !(k > 0 && b[k - 1] == 13)
  }

  /** A carriage return that no newline follows. */
  predicate IsCr(b: seq<Byte>, k: nat) {
    k < |b| && b[k] == 13 && !(k + 1 < |b| && b[k + 1] == 10)
  }

  function Where(p: nat -> bool, i: nat, n: nat): set<nat> {
    set k: nat | i <= k < n && p(k)
  }

  lemma WhereFront(p: nat -> bool, i: nat, n: nat)
    requires i < n
    ensures |Where(p, i, n)| == (if p(i) then 1 else 0) + |Where(p, i + 1, n)|
  {
    var rest := Where(p, i + 1, n);
    assert i !in rest;
    if p(i) {
      assert Where(p, i, n) == {i} + rest;
    } else {
      assert Where(p, i, n) == rest;
    }
  }

  function CrLfs(b: seq<Byte>): nat -> bool {
    (k: nat) => IsCrLf(b, k)
  }

  function Lfs(b: seq<Byte>): nat -> bool {
    (k: nat) => IsLf(b, k)
  }

  function Crs(b: seq<Byte>): nat -> bool {
    (k: nat) => IsCr(b, k)
  }

  /** The counts of what begins at position `i` or later. */
  function Counts(b: seq<Byte>, i: nat): Tally {
    Tally(|Where(CrLfs(b), i, |b|)|, |Where(Lfs(b), i, |b|)|, |Where(Crs(b), i, |b|)|)
  }

  lemma CountsFront(b: seq<Byte>, i: nat)
    requires i < |b|
    ensures Counts(b, i) ==
            Plus(Tally(if IsCrLf(b, i) then 1 else 0, if IsLf(b, i) then 1 else 0, if IsCr(b, i) then 1 else 0), Counts(b, i + 1))
  {
    hide Where, IsCrLf, IsLf, IsCr;
    WhereFront(CrLfs(b), i, |b|);
    WhereFront(Lfs(b), i, |b|);
    WhereFront(Crs(b), i, |b|);
  }

  lemma FirstEnding(b: seq<Byte>)
    requires b != []
    ensures CountEndings(b) ==
            if |b| > 1 && b[0] == 13 && b[1] == 10 then Plus(Tally(1, 0, 0), CountEndings(b[2..]))
            else Plus(Tally(0, if b[0] == 10 then 1 else 0, if b[0] == 13 then 1 else 0), CountEndings(b[1..]))
  {
  }

  lemma EndingAt(b: seq<Byte>, i: nat)
    requires i < |b|
    ensures CountEndings(b[i..]) ==
            if IsCrLf(b, i) then Plus(Tally(1, 0, 0), CountEndings(b[i + 2..]))
            else Plus(Tally(0, if b[i] == 10 then 1 else 0, if b[i] == 13 then 1 else 0), CountEndings(b[i + 1..]))
  {
    hide CountEndings, Plus;
    var rest := b[i..];
    FirstEnding(rest);
    assert rest[1..] == b[i + 1..];
    if IsCrLf(b, i) {
      assert rest[2..] == b[i + 2..];
    }
  }

  lemma {:induction false} CountsFrom(b: seq<Byte>, i: nat)
    requires i <= |b| && !(0 < i < |b| && b[i - 1] == 13 && b[i] == 10)
    ensures CountEndings(b[i..]) == Counts(b, i)
    decreases |b| - i
  {
    if i == |b| {
      NothingCounts(b);
    } else {
      hide CountEndings, Counts;
      EndingAt(b, i);
      CountsFront(b, i);
      if IsCrLf(b, i) {
        CountsFront(b, i + 1);
        CountsFrom(b, i + 2);
      } else {
        CountsFrom(b, i + 1);
      }
    }
  }

  lemma NothingCounts(b: seq<Byte>)
    ensures Counts(b, |b|) == CountEndings(b[|b|..])
  {
    forall p: nat -> bool
      ensures Where(p, |b|, |b|) == {}
    {
    }
  }

  lemma EndsAs(b: seq<Byte>)
    ensures var (final, n) := (FinalEnding(b), |b|);
            && (final.CrLf? <==> n >= 2 && IsCrLf(b, n - 2))
            && (final.Lf? <==> n >= 1 && IsLf(b, n - 1))
            && (final.Cr? <==> n >= 1 && IsCr(b, n - 1))
  {
  }

  /** The report counts the pairs of CR and LF, the other LFs and the other CRs, and
      tells which of them ends the file. */
  lemma EndingsExactly(b: seq<Byte>)
    ensures var info := EndingsOf(b);
            && info.crlf == |set k: nat | k < |b| && IsCrLf(b, k)|
            && info.lf == |set k: nat | k < |b| && IsLf(b, k)|
            && info.cr == |set k: nat | k < |b| && IsCr(b, k)|
    ensures var (final, n) := (EndingsOf(b).final, |b|);
            && (final.CrLf? <==> n >= 2 && IsCrLf(b, n - 2))
            && (final.Lf? <==> n >= 1 && IsLf(b, n - 1))
            && (final.Cr? <==> n >= 1 && IsCr(b, n - 1))
  {
    EndsAs(b);
    CountsFrom(b, 0);
    hide CountEndings, FinalEnding, IsCrLf, IsLf, IsCr;
    assert b[0..] == b;
    assert Where(CrLfs(b), 0, |b|) == set k: nat | k < |b| && IsCrLf(b, k);
    assert Where(Lfs(b), 0, |b|) == set k: nat | k < |b| && IsLf(b, k);
    assert Where(Crs(b), 0, |b|) == set k: nat | k < |b| && IsCr(b, k);
  }
}
