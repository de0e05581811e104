/**
 The random string: letters are cut out of 63-bit draws, six bits at a time from the low end, and bits that
 name no letter are passed over.
 */
module RandString {

  /** What the source of randomness returns: a 63-bit number in a machine word. */
  type Draw = x: bv64 | x < 0x8000_0000_0000_0000

  const LETTERS := "abcdefghijklmnopqrstuvwxyzABCDEFGHIJKLMNOPQRSTUVWXYZ"

  const LETTER_INDEX_BITS := 6

  const LETTER_INDEX_MASK: bv64 := 63

  const LETTER_INDEX_MAX := 63 / LETTER_INDEX_BITS

  // ----- the arithmetic reading -----

  function Over64(x: bv64): bv64 {
    x / 64
  }

  /** What is left of a draw after dividing it by 64 `j` times. */
  function Rest(draw: bv64, j: nat): bv64 {
    if j == 0 then draw else Over64(Rest(draw, j - 1))
  }

  /** Digit `j` of a draw written in base 64. */
  function Digit(draw: Draw, j: nat): bv64 {
    Rest(draw, j) % 64
  }

  /** The stream of digits: ten of each draw, in draw order. */
  function DigitAt(draws: nat -> Draw, p: nat): bv64 {
    Digit(draws(p / LETTER_INDEX_MAX), p % LETTER_INDEX_MAX)
  }

  /** Those of the first `p` digits that name a letter. */
  function Accepted(draws: nat -> Draw, p: nat): (r: seq<bv64>)
    ensures forall i :: 0 <= i < |r| ==> r[i] < 52
  {
    if p == 0 then []
    else Accepted(draws, p - 1) + if DigitAt(draws, p - 1) < 52 then [DigitAt(draws, p - 1)] else []
  }

  /** The letters that some digits name. */
  function Spelled(digits: seq<bv64>): string
    requires forall i :: 0 <= i < |digits| ==> digits[i] < 52
  {
    seq(|digits|, i requires 0 <= i < |digits| => LETTERS[digits[i] as int])
  }

  lemma {:induction false} AcceptedGrow(draws: nat -> Draw, p: nat, q: nat)
    requires p <= q
    ensures Accepted(draws, p) <= Accepted(draws, q)
  {
    if p < q {
      hide DigitAt;
      AcceptedGrow(draws, p, q - 1);
    }
  }

  // ----- slices of bits are digits -----

  /** Masking the low bits takes the remainder. */
  lemma MaskIsRemainder(x: bv64)
    ensures x & LETTER_INDEX_MASK == x % 64
  {
  }

  lemma RestStep(x: bv64, j: nat)
    ensures Rest(x, 0) == x && Rest(x, j + 1) == Over64(Rest(x, j))
  {
    hide Over64;
  }

  lemma ShiftIsQuotient(x: bv64)
    ensures x >> 6 == Over64(x)
  {
  }

  /** The number of bits behind digit `j`. */
  function BitsBelow(j: nat): (r: bv8)
    requires j < LETTER_INDEX_MAX
    ensures r <= 54
  {
    match j
    case 0 => 0
    case 1 => 6
    case 2 => 12
    case 3 => 18
    case 4 => 24
    case 5 => 30
    case 6 => 36
    case 7 => 42
    case 8 => 48
    case 9 => 54
  }

  lemma SixMore(j: nat)
    requires 0 < j < LETTER_INDEX_MAX
    ensures BitsBelow(j - 1) <= 48 && BitsBelow(j) == BitsBelow(j - 1) + 6
  {
  }

  function ShiftedBy(x: bv64, s: bv8): bv64
    requires s <= 64
  {
    x >> s
  }

  lemma ShiftSixMore(x: bv64, s: bv8)
    requires s <= 54
    ensures Over64(ShiftedBy(x, s)) == ShiftedBy(x, s + 6)
  {
  }

  lemma ShiftNone(x: bv64)
    ensures ShiftedBy(x, 0) == x
  {
  }

  /** What is left after `j` divisions by 64 is the draw shifted past the bits of `j` digits. */
  lemma {:induction false} RestIsShift(x: bv64, j: nat)
    requires j < LETTER_INDEX_MAX
    ensures Rest(x, j) == ShiftedBy(x, BitsBelow(j))
  {
    hide Rest, Over64, ShiftedBy;
    RestStep(x, 0);
    ShiftNone(x);
    if j > 0 {
      SixMore(j);
      RestIsShift(x, j - 1);
      RestStep(x, j - 1);
      ShiftSixMore(x, BitsBelow(j - 1));
    }
  }

  /** Those shifts divide by the powers of 64. */
  lemma ShiftsArePowers(x: bv64)
    ensures x >> 0 == x / 1 && x >> 6 == x / 0x40 && x >> 12 == x / 0x1000 && x >> 18 == x / 0x4_0000
    ensures x >> 24 == x / 0x100_0000 && x >> 30 == x / 0x4000_0000 && x >> 36 == x / 0x10_0000_0000
    ensures x >> 42 == x / 0x400_0000_0000 && x >> 48 == x / 0x1_0000_0000_0000
    ensures x >> 54 == x / 0x40_0000_0000_0000
  {
  }

  // ----- the loop -----

  /** The loop; `draws` are the numbers it gets, and `used` how many of them it takes.  It is called with a
      length that is not negative, and ends when the draws have enough digits that name a letter. */
  method RandString(draws: nat -> Draw, n: nat) returns (s: string, used: nat)
    requires exists q :: n <= |Accepted(draws, q)|
    ensures |s| == n
    ensures forall q :: n <= |Accepted(draws, q)| ==> s == Spelled(Accepted(draws, q)[..n])
    ensures exists p :: IsRead(draws, s, p, used)
  {
    hide DigitAt, Accepted, Spelled, Placed, IsRead;
    ghost var enough: nat :| n <= |Accepted(draws, enough)|;
    s := "";
    var i, cache, remain := n - 1, draws(0) as bv64, LETTER_INDEX_MAX;
    used := 1;
    ghost var p := 0;
    PlacedFirst(draws);
    AcceptedStep(draws, 0);
    NothingSpelled();
    while i >= 0
      invariant -1 <= i < n && |Accepted(draws, p)| == n - 1 - i && s == Spelled(Accepted(draws, p))
      invariant Placed(draws, p, used, remain, cache)
      invariant i < 0 && p > 0 ==> DigitAt(draws, p - 1) < 52
      decreases enough - p
    {
      NotEnough(draws, n, p, enough);
      PlacedAgain(draws, p, used, remain, cache);
      if remain == 0 {
        cache, remain := draws(used) as bv64, LETTER_INDEX_MAX;
        used := used + 1;
      }
      SliceIsDigit(draws, p, used, remain, cache);
      AcceptedStep(draws, p);
      var idx := cache & LETTER_INDEX_MASK;
      if idx < 52 {
        SpelledMore(Accepted(draws, p), idx);
        s := s + [LETTERS[idx as int]];
        i := i - 1;
      }
      cache := cache >> LETTER_INDEX_BITS;
      remain := remain - 1;
      p := p + 1;
    }
    PlacedRead(draws, p, used, remain, cache);
    SameAccepted(draws, n, p);
    SpelledLength(Accepted(draws, p));
  }

  /** Where the loop stands: `p` digits are read, and the cache holds what is left of the last draw; it was
      drawn because a digit was wanted. */
  ghost predicate Placed(draws: nat -> Draw, p: nat, used: int, remain: int, cache: bv64) {
    Loaded(draws, p, used, remain, cache) && (p > 0 ==> remain < LETTER_INDEX_MAX)
  }

  ghost predicate Loaded(draws: nat -> Draw, p: nat, used: int, remain: int, cache: bv64) {
    && used >= 1 && 0 <= remain <= LETTER_INDEX_MAX && p == LETTER_INDEX_MAX * used - remain
    && (remain > 0 ==> cache == Rest(draws(used - 1), LETTER_INDEX_MAX - remain))
  }

  lemma PlacedFirst(draws: nat -> Draw)
    ensures Placed(draws, 0, 1, LETTER_INDEX_MAX, draws(0))
  {
    RestStep(draws(0), 0);
  }

  lemma PlacedAgain(draws: nat -> Draw, p: nat, used: nat, remain: int, cache: bv64)
    requires Placed(draws, p, used, remain, cache)
    ensures if remain == 0 then Loaded(draws, p, used + 1, LETTER_INDEX_MAX, draws(used))
            else remain > 0 && Loaded(draws, p, used, remain, cache)
  {
    RestStep(draws(used), 0);
    hide Rest;
  }

  lemma PlacedRead(draws: nat -> Draw, p: nat, used: nat, remain: int, cache: bv64)
    requires Placed(draws, p, used, remain, cache) && (p > 0 ==> DigitAt(draws, p - 1) < 52)
    ensures IsRead(draws, Spelled(Accepted(draws, p)), p, used)
  {
    hide Rest;
  }

  /** `s` is what the first `p` digits name, the last of them with a letter of its own, and `used` draws are just
      enough for `p` digits; one is taken in any case. */
  ghost predicate IsRead(draws: nat -> Draw, s: string, p: nat, used: nat) {
    && s == Spelled(Accepted(draws, p)) && (p > 0 ==> DigitAt(draws, p - 1) < 52) && used >= 1
    && p <= LETTER_INDEX_MAX * used && (used > 1 ==> LETTER_INDEX_MAX * (used - 1) < p)
  }

  lemma AcceptedStep(draws: nat -> Draw, p: nat)
    ensures Accepted(draws, 0) == []
    ensures Accepted(draws, p + 1) ==
            if DigitAt(draws, p) < 52 then Accepted(draws, p) + [DigitAt(draws, p)] else Accepted(draws, p)
  {
    hide DigitAt;
  }

  lemma NothingSpelled()
    ensures Spelled([]) == ""
  {
  }

  lemma SpelledLength(digits: seq<bv64>)
    requires forall i :: 0 <= i < |digits| ==> digits[i] < 52
    ensures |Spelled(digits)| == |digits|
  {
  }

  lemma SpelledMore(digits: seq<bv64>, d: bv64)
    requires (forall i :: 0 <= i < |digits| ==> digits[i] < 52) && d < 52
    ensures Spelled(digits + [d]) == Spelled(digits) + [LETTERS[d as int]]
  {
  }

  /** While letters are missing, so are digits. */
  lemma NotEnough(draws: nat -> Draw, n: nat, p: nat, enough: nat)
    requires |Accepted(draws, p)| < n <= |Accepted(draws, enough)|
    ensures p < enough
  {
    if enough <= p {
      AcceptedGrow(draws, enough, p);
    }
  }

  lemma SameAccepted(draws: nat -> Draw, n: nat, p: nat)
    requires |Accepted(draws, p)| == n
    ensures forall q :: n <= |Accepted(draws, q)| ==> Accepted(draws, p) == Accepted(draws, q)[..n]
  {
    forall q: nat | n <= |Accepted(draws, q)|
      ensures Accepted(draws, p) == Accepted(draws, q)[..n]
    {
      if p <= q {
        AcceptedGrow(draws, p, q);
      } else {
        AcceptedGrow(draws, q, p);
      }
    }
  }

  /** Cutting a digit out of the cache by mask and shift takes the next digit, and leaves the rest behind it. */
  lemma SliceIsDigit(draws: nat -> Draw, p: nat, used: nat, remain: int, cache: bv64)
    requires Loaded(draws, p, used, remain, cache) && remain > 0
    ensures cache & LETTER_INDEX_MASK == DigitAt(draws, p)
    ensures Placed(draws, p + 1, used, remain - 1, cache >> LETTER_INDEX_BITS)
  {
    hide Rest, Over64;
    MaskIsRemainder(cache);
    ShiftIsQuotient(cache);
    RestStep(draws(used - 1), LETTER_INDEX_MAX - remain);
    assert p / LETTER_INDEX_MAX == used - 1 && p % LETTER_INDEX_MAX == LETTER_INDEX_MAX - remain;
  }

  // ----- the letters -----

  /** Digit `d` names the `d`-th letter: the small ones from 'a' on, then the capital ones from 'A' on. */
  lemma LettersInOrder(d: int)
    requires 0 <= d < 52
    ensures |LETTERS| == 52
    ensures LETTERS[d] as int == if d < 26 then 'a' as int + d else 'A' as int + (d - 26)
  {
    if d < 26 {
      SmallLetters(d);
    } else {
      CapitalLetters(d);
    }
  }

  lemma SmallLetters(d: int)
    requires 0 <= d < 26
    ensures LETTERS[d] as int == 'a' as int + d
  {
    assert LETTERS[d] == "abcdefghijklmnopqrstuvwxyz"[d];
  }

  lemma CapitalLetters(d: int)
    requires 26 <= d < 52
    ensures LETTERS[d] as int == 'A' as int + (d - 26)
  {
  }

  /** Different digits name different letters. */
  lemma LettersDistinct(c: int, d: int)
    requires 0 <= c < d < 52
    ensures LETTERS[c] != LETTERS[d]
  {
    LettersInOrder(c);
    LettersInOrder(d);
  }
}
