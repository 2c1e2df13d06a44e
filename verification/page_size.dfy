/** The self-referential size of a serialized history page: the page text contains
    its own byte count in decimal. */
module PageSize {
  const MAX_HISTORY_PAGE_BYTES: nat := 4 * 1024 * 1024

  const BATCHES_OPEN := "{\"batches\":["
  const VALUE_COUNT := "],\"valueCount\":"
  const NEXT_CURSOR := ",\"nextCursor\":"
  const SERIALIZED_BYTES := ",\"serializedBytes\":"
  const CLOSE := "}"
  const NULL := "null"

  /** A quoted `v1.` token of 107 base64url characters. */
  const CURSOR_BYTES: nat := |"\"v1."| + 107 + |"\""|

  const CURSOR_PAGE_FIXED_BYTES: nat :=
    |BATCHES_OPEN| + |VALUE_COUNT| + |NEXT_CURSOR| + CURSOR_BYTES + |SERIALIZED_BYTES| + |CLOSE|

  /** `len(str(n))`. */
  function Digits(n: nat): (d: nat)
    ensures d >= 1
  {
    if n < 10 then 1 else 1 + Digits(n / 10)
  }

  lemma {:induction false} DigitsMonotone(a: nat, b: nat)
    requires a <= b
    ensures Digits(a) <= Digits(b)
    decreases b
  {
    if b >= 10 {
      DigitsMonotone(a / 10, b / 10);
    }
  }

  /** Everything but the size's own digits. */
  function FixedBytes(batchBytes: nat, count: nat, hasCursor: bool): nat {
    |BATCHES_OPEN| + batchBytes + |VALUE_COUNT| + Digits(count) + |NEXT_CURSOR|
    + (if hasCursor then CURSOR_BYTES else |NULL|) + |SERIALIZED_BYTES| + |CLOSE|
  }

  ghost predicate IsSize(fixed: nat, s: nat) {
    s == fixed + Digits(s)
  }

  ghost predicate IsLeastSize(fixed: nat, s: nat) {
    IsSize(fixed, s) && forall t: nat :: IsSize(fixed, t) ==> s <= t
  }

  /** Iterating from below never passes a size. */
  lemma BelowEverySize(fixed: nat, c: nat)
    requires forall t: nat :: IsSize(fixed, t) ==> c <= t
    ensures forall t: nat :: IsSize(fixed, t) ==> fixed + Digits(c) <= t
  {
    forall t: nat | IsSize(fixed, t)
      ensures fixed + Digits(c) <= t
    {
      DigitsMonotone(c, t);
    }
  }

  lemma {:induction false} DigitsBelow(n: nat)
    ensures n < 10 ==> Digits(n) == 1
    ensures n >= 10 ==> Digits(n) < n
  {
    if n >= 10 {
      DigitsBelow(n / 10);
    }
  }

  lemma {:induction false} OneMoreDigit(n: nat)
    ensures Digits(n + 1) <= Digits(n) + 1
  {
    if n >= 10 {
      DigitsMonotone((n + 1) / 10, n / 10 + 1);
      OneMoreDigit(n / 10);
    }
  }

  /** The loop of `_encoded_history_page_size_from_batch_bytes`: it ends, at the
      least size. Each candidate is at most the next and at most every size. */
  method EncodedSize(fixed: nat) returns (size: nat)
    ensures IsLeastSize(fixed, size)
  {
    var candidate := fixed + 1;
    SizeFrom(fixed, fixed + 1);
    ghost var some: nat :| IsSize(fixed, some);
    while true
      invariant fixed < candidate <= fixed + Digits(candidate)
      invariant forall t: nat :: IsSize(fixed, t) ==> candidate <= t
      decreases some - candidate
    {
      BelowEverySize(fixed, candidate);
      var s := fixed + Digits(candidate);
      if s == candidate {
        return s;
      }
      DigitsMonotone(candidate, s);
      candidate := s;
    }
  }

  /** A size exists: iterating upwards stays below `2 * fixed + 12`. */
  lemma SizeFrom(fixed: nat, c: nat)
    requires fixed < c <= fixed + Digits(c) && c <= 2 * fixed + 12
    ensures exists t: nat :: IsSize(fixed, t)
    decreases 2 * fixed + 12 - c
  {
    var s := fixed + Digits(c);
    if s == c {
      assert IsSize(fixed, c);
    } else {
      DigitsMonotone(c, s);
      DigitsHalf(fixed, c);
      SizeFrom(fixed, s);
    }
  }

  lemma DigitsHalf(fixed: nat, c: nat)
    requires c <= 2 * fixed + 12
    ensures fixed + Digits(c) <= 2 * fixed + 12
  {
    DigitsMonotone(c, 2 * fixed + 12);
    DigitsOfDouble(fixed);
  }

  lemma {:induction false} DigitsOfDouble(n: nat)
    ensures Digits(2 * n + 12) <= n + 12
  {
    DigitsBelow(2 * n + 12);
    if n >= 1 {
      DigitsOfDouble(n - 1);
      OneMoreDigit(2 * n + 10);
      OneMoreDigit(2 * n + 11);
      if n >= 10 {
        DigitsBelow((2 * n + 12) / 10);
      }
    }
  }

  /** The selection estimate `fixed + digits(fixed + 8)` never falls below the size
      that is finally written, as long as sizes have at most eight digits. */
  lemma EstimateCovers(fixed: nat, s: nat)
    requires IsLeastSize(fixed, s) && fixed + 8 < 1_0000_0000
    ensures s <= fixed + Digits(fixed + 8)
  {
    var t := fixed + Digits(fixed + 8);
    EightDigits(fixed + 8);
    DigitsMonotone(t, fixed + 8);
    LeastBelow(fixed, s, t);
  }

  lemma EightDigits(n: nat)
    requires n < 1_0000_0000
    ensures Digits(n) <= 8
  {
    assert Digits(9999_9999) == 8 by {
      assert Digits(9) == 1 && Digits(99) == 2 && Digits(999) == 3 && Digits(9999) == 4;
      assert Digits(99999) == 5 && Digits(99_9999) == 6 && Digits(999_9999) == 7;
    }
    DigitsMonotone(n, 9999_9999);
  }

  /** The least size is at most anything that bounds its own digits. */
  lemma LeastBelow(fixed: nat, s: nat, t: nat)
    requires IsLeastSize(fixed, s) && fixed + Digits(t) <= t
    ensures s <= t
    decreases t
  {
    if t < s {
      var u := fixed + Digits(t);
      if u == t {
        assert IsSize(fixed, t);
      } else {
        DigitsMonotone(u, t);
        LeastBelow(fixed, s, u);
      }
    }
  }

  /** The fixed bytes 8 have two sizes, 9 and 10: taking the least one matters. */
  lemma SizesAreNotUnique()
    ensures IsSize(8, 9) && IsSize(8, 10) && IsLeastSize(8, 9)
  {
    forall t: nat | IsSize(8, t)
      ensures 9 <= t
    {
    }
  }

  lemma SizeGrows(a: nat, b: nat, s: nat, t: nat)
    requires a <= b && IsLeastSize(a, s) && IsLeastSize(b, t)
    ensures s <= t
  {
    LeastBelow(a, s, t);
  }
}
