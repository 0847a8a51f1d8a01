/** The storage bargain: what a pledge earns and what a byte costs, as
    `scripts/check-bargain.py` recomputes it and
    `crates/itsanas-coord/src/accounting.rs` applies it. */
module Bargain {
  import opened Arithmetic
  import opened Text
  import opened Sizes

  const U32_MAX := 0xFFFF_FFFF
  type part = n: int | 1 <= n <= 0xFFFF_FFFF witness 1

  /** Parts kept for each so many lent: 30/70, say. */
  datatype Split = Split(own: part, network: part)

  /** The price of keeping so many bytes, rounded up, in whole numbers. */
  function Price(s: Split, keep: nat): nat {
    CeilDiv(keep * s.network, s.own)
  }

  /** The room a pledge earns, rounded down. */
  function Earned(s: Split, pledge: nat): nat {
    FloorDiv(pledge * s.own, s.network)
  }

  /** The same two, held to 64 bits. */
  function PledgeNeededFor(s: Split, keep: u64): u64 {
    Saturated(Price(s, keep))
  }

  function RoomEarned(s: Split, pledge: u64): u64 {
    Saturated(Earned(s, pledge))
  }

  lemma CeilDivAtMost(n: nat, d: nat, p: nat)
    requires d > 0
    ensures CeilDiv(n, d) <= p <==> n <= p * d
  {
    CeilDivBounds(n, d);
    var c := CeilDiv(n, d);
    if c <= p {
      MulMono(c, p, d);
    } else {
      MulMono(p, c - 1, d);
      assert (c - 1) * d == c * d - d;
    }
  }

  lemma FloorDivAtLeast(n: nat, d: nat, k: nat)
    requires d > 0
    ensures k <= n / d <==> k * d <= n
  {
    Division(n, d);
    if k <= n / d {
      MulMono(k, n / d, d);
    } else {
      MulMono(n / d + 1, k, d);
      assert (n / d + 1) * d == n / d * d + d;
    }
  }

  /** A pledge covers the price exactly when what it earns covers the room: for
      every split and every number. */
  lemma PriceAndEarningsAreAdjoint(s: Split, keep: nat, pledge: nat)
    ensures Price(s, keep) <= pledge <==> keep <= Earned(s, pledge)
  {
    CeilDivAtMost(keep * s.network, s.own, pledge);
    FloorDivAtLeast(pledge * s.own, s.network, keep);
  }

  /** In 64 bits they are adjoint exactly when the price fits, or the pledge is
      not the largest number there is: `u64::MAX` covers a price that was cut
      down to it, and earns less than was asked. */
  lemma AdjointInSixtyFourBits(s: Split, keep: u64, pledge: u64)
    ensures (PledgeNeededFor(s, keep) <= pledge <==> keep <= RoomEarned(s, pledge))
            <==> (pledge < U64_MAX || Price(s, keep) <= U64_MAX)
  {
    PriceAndEarningsAreAdjoint(s, keep, pledge);
  }

  /** One such pair, at the shipped split. */
  lemma LargestPledgeFallsShort()
    ensures var s := Split(30, 70); PledgeNeededFor(s, U64_MAX) <= U64_MAX && RoomEarned(s, U64_MAX) < U64_MAX
  {
  }

  /** Pledging the argument a refusal quotes earns what was asked, and costs less
      than one quoted unit more than the price; it can be typed exactly when the
      quoted number fits in 64 bits. */
  lemma QuotedPriceBuysTheRoom(s: Split, keep: u64)
    requires Price(s, keep) <= U64_MAX
    ensures var price := PledgeNeededFor(s, keep);
            var typed := ParseSize(SizeArgument(price));
            (typed.Some? <==> QuotedBytes(price) <= U64_MAX)
            && (typed.Some? ==>
                  keep <= RoomEarned(s, typed.value) && price <= typed.value < price + Worth(QuotedIn(price)))
  {
    var price := PledgeNeededFor(s, keep);
    ArgumentReadsBack(price);
    PriceAndEarningsAreAdjoint(s, keep, QuotedBytes(price));
  }

  // ----------------------------------------------- comparing splits

  /** `grants_no_more_than`: cross-multiplied. */
  predicate GrantsNoMoreThan(s: Split, t: Split) {
    s.own * t.network <= t.own * s.network
  }

  lemma Cancel(a: nat, b: nat, d: nat)
    requires d > 0 && a * d <= b * d
    ensures a <= b
  {
    if a > b {
      MulMono(b + 1, a, d);
    }
  }

  lemma EarnsNoMore(s: Split, t: Split, pledge: nat)
    requires GrantsNoMoreThan(s, t)
    ensures Earned(s, pledge) <= Earned(t, pledge)
  {
    var a := Earned(s, pledge);
    Division(pledge * s.own, s.network);
    assert a * s.network <= pledge * s.own;
    MulMono(a * s.network, pledge * s.own, t.network);
    MulMono(s.own * t.network, t.own * s.network, pledge);
    Rearranged(a, s.network, t.network, pledge, s.own, t.own);
    Cancel(a * t.network, pledge * t.own, s.network);
    FloorDivAtLeast(pledge * t.own, t.network, a);
  }

  lemma Rearranged(a: nat, n: nat, m: nat, p: nat, o: nat, q: nat)
    ensures a * n * m == a * m * n && p * o * m == o * m * p && q * n * p == p * q * n
  {
  }

  /** The comparison says exactly what it means: no pledge there is earns more
      under the one than under the other. */
  lemma GrantsNoMoreMeansEarnsNoMore(s: Split, t: Split)
    ensures GrantsNoMoreThan(s, t) <==> forall pledge: u64 :: RoomEarned(s, pledge) <= RoomEarned(t, pledge)
  {
    hide RoomEarned;
    if GrantsNoMoreThan(s, t) {
      forall pledge: u64 ensures RoomEarned(s, pledge) <= RoomEarned(t, pledge) {
        RoomNoMore(s, t, pledge);
      }
    } else {
      var pledge := TellingPledge(s, t);
      assert RoomEarned(s, pledge) > RoomEarned(t, pledge);
    }
  }

  lemma RoomNoMore(s: Split, t: Split, pledge: u64)
    requires GrantsNoMoreThan(s, t)
    ensures RoomEarned(s, pledge) <= RoomEarned(t, pledge)
  {
    EarnsNoMore(s, t, pledge);
  }

  lemma PartsFit(a: part, b: part)
    ensures 0 < a * b <= U64_MAX
  {
    MulMono(1, a, b);
    MulMono(a, U32_MAX, b);
    MulMono(b, U32_MAX, U32_MAX);
    assert U32_MAX * b == b * U32_MAX;
  }

  /** A pledge that tells the two splits apart: the product of what they lend. */
  lemma TellingPledge(s: Split, t: Split) returns (pledge: u64)
    requires !GrantsNoMoreThan(s, t)
    ensures RoomEarned(s, pledge) > RoomEarned(t, pledge)
  {
    PartsFit(s.network, t.network);
    PartsFit(s.own, t.network);
    PartsFit(t.own, s.network);
    pledge := s.network * t.network;
    EarnedExactly(s.own, s.network, t.network);
    EarnedExactly(t.own, t.network, s.network);
  }

  lemma EarnedExactly(own: part, network: part, other: part)
    ensures network * other * own / network == own * other
    ensures other * network * own / network == own * other
  {
    assert network * other * own == (own * other) * network;
    assert other * network * own == (own * other) * network;
    DivisionIs((own * other) * network, network, own * other, 0);
  }

  // ---------------------------------------------------- written out

  /** The room is the most that the pledge pays for: the largest number, of 64 bits,
      that in parts lent costs no more than the pledge in parts kept. */
  lemma RoomIsTheMost(s: Split, pledge: u64, room: u64)
    ensures RoomEarned(s, pledge) * s.network <= pledge * s.own
    ensures room * s.network <= pledge * s.own ==> room <= RoomEarned(s, pledge)
  {
    CappedFloor(pledge * s.own, s.network, room);
  }

  lemma CappedFloor(n: nat, d: nat, k: u64)
    requires d > 0
    ensures Saturated(n / d) * d <= n && (k * d <= n ==> k <= Saturated(n / d))
  {
    FloorDivAtLeast(n, d, k);
    Division(n, d);
    MulMono(Saturated(n / d), n / d, d);
  }

  /** The price is the least that pays for the room, and the largest number of 64
      bits when none does. */
  lemma PriceIsTheLeast(s: Split, keep: u64, pledge: u64)
    ensures keep * s.network <= pledge * s.own ==> PledgeNeededFor(s, keep) <= pledge
    ensures keep * s.network <= PledgeNeededFor(s, keep) * s.own || PledgeNeededFor(s, keep) == 0xFFFF_FFFF_FFFF_FFFF
  {
    CappedCeil(keep * s.network, s.own, pledge);
  }

  lemma CappedCeil(n: nat, d: nat, k: u64)
    requires d > 0
    ensures n <= k * d ==> Saturated(CeilDiv(n, d)) <= k
    ensures n <= Saturated(CeilDiv(n, d)) * d || Saturated(CeilDiv(n, d)) == 0xFFFF_FFFF_FFFF_FFFF
  {
    CeilDivAtMost(n, d, k);
    CeilDivAtMost(n, d, CeilDiv(n, d));
  }
}
