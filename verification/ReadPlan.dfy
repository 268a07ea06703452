/** How many passes a read makes and how many whole blocks they give. */
module ReadPlan {
  import opened Words
  import opened Geometry

  const DEFAULT_SECTORS: word := 0xffff_ffff

  /** init_range: amounts outside the accepted ranges become -1. */
  function InRange(asked: word, low: word): (n: word)
    ensures n == DEFAULT_SECTORS || low <= n <= 100
    ensures low <= asked <= 100 <==> n == asked && n <= 100
  {
    if low <= asked <= 100 then asked else DEFAULT_SECTORS
  }

  /** The amount used in place of -1 by the read methods. */
  function Chosen(n: word, readMethod: int): word {
    if n != DEFAULT_SECTORS then n else if 4 <= readMethod <= 6 then 27 else 16
  }

  predicate Stops(deviation: nat, passes: nat) {
    deviation * passes % SECTORS_PER_BLOCK <= 1
  }

  /** Sixteen passes always end on a block boundary. */
  lemma SixteenStop(deviation: nat)
    ensures Stops(deviation, 16)
  {
  }

  lemma StopsWhen(deviation: nat, passes: nat, product: nat)
    requires product == deviation * passes
    ensures Stops(deviation, passes) <==> product % SECTORS_PER_BLOCK <= 1
  {
  }

  lemma NextProduct(d: nat, c: nat)
    ensures d * (c + 1) + d == d * (c + 2) && d * 1 == d
  {
  }

  /** The planning loop of disc_set_read_method. */
  method Plan(secMem: word) returns (maxCnt: word, maxBlk: word)
    ensures maxCnt <= 15
    ensures secMem % 16 <= 3 ==> maxCnt == 0
    ensures secMem % 16 > 3 ==> maxCnt > 0 && Stops(secMem % 16, maxCnt + 1)
    ensures secMem % 16 > 3 ==> forall n :: 2 <= n <= maxCnt ==> !Stops(secMem % 16, n)
    ensures maxBlk == secMem * (maxCnt + 1) % WORD / 16
  {
    hide Stops;
    var deviation := secMem % SECTORS_PER_BLOCK;
    var counter := 0;
    NextProduct(deviation, 0);
    SixteenStop(deviation);
    if deviation > 3 {
      var cnt1 := deviation;
      while true
        invariant 0 <= counter <= 14 && cnt1 == deviation * (counter + 1)
        invariant forall n :: 2 <= n <= counter + 1 ==> !Stops(deviation, n)
        decreases 15 - counter
      {
        NextProduct(deviation, counter);
        cnt1 := cnt1 + deviation;
        counter := counter + 1;
        StopsWhen(deviation, counter + 1, cnt1);
        if cnt1 % SECTORS_PER_BLOCK <= 1 {
          break;
        }
      }
    }
    maxCnt := counter;
    var all := secMem * (maxCnt + 1) % WORD;
    maxBlk := (all - all % SECTORS_PER_BLOCK) / 16;
  }

  lemma ProductModulo(a: nat, n: nat)
    ensures a * n % 16 == a % 16 * n % 16
  {
    var q, r := a / 16, a % 16;
    assert a * n == 16 * (q * n) + r * n by {
      Distribute(q, r, n);
    }
    SameRemainder(q * n, r * n);
  }

  lemma Distribute(q: nat, r: nat, n: nat)
    ensures (16 * q + r) * n == 16 * (q * n) + r * n
  {
  }

  lemma SameRemainder(x: nat, y: nat)
    ensures (16 * x + y) % 16 == y % 16
  {
  }

  lemma ProductBound(a: nat, n: nat)
    requires 1 <= n <= 16
    ensures a <= a * n <= 16 * a
  {
  }

  /** The passes read the blocks and at most three sectors more. */
  lemma PlanWastesLittle(secMem: word, maxCnt: word, maxBlk: word)
    requires secMem * 16 < WORD && maxCnt <= 15
    requires secMem % 16 <= 3 ==> maxCnt == 0
    requires secMem % 16 > 3 ==> Stops(secMem % 16, maxCnt + 1)
    requires maxBlk == secMem * (maxCnt + 1) % WORD / 16
    ensures 16 * maxBlk <= secMem * (maxCnt + 1) < 16 * maxBlk + 4
    ensures secMem >= 16 ==> maxBlk >= 1
  {
    ProductModulo(secMem, maxCnt + 1);
    ProductBound(secMem, maxCnt + 1);
    var all := secMem * (maxCnt + 1);
    WordModulo(all);
  }

  lemma WordModulo(x: nat)
    requires x < WORD
    ensures x % WORD == x
  {
  }
}
