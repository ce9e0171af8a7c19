/**
 How large the pieces are that a scanning thread asks for. Four answered batches in a row double the piece, a failed one
 halves it; but the agent never returns more than one mebibyte of a piece, and a longer one comes back cut.
 */
module ReadPace {
  import opened Machine

  const MIN_CHUNK := 64 * 1024
  const MAX_CHUNK := 4 * 1024 * 1024
  const BATCH := 4

  /** What the agent returns of one piece at most. */
  const MAX_READ := 1024 * 1024

  /** The size of the next pieces, and how many batches were answered since it last changed. */
  datatype Pace = Pace(chunk: nat, streak: nat)

  predicate Fair(p: Pace) { MIN_CHUNK <= p.chunk <= MAX_CHUNK }

  const START := Pace(1024 * 1024, 0)

  function Faster(p: Pace): (r: Pace)
    ensures Fair(p) ==> Fair(r)
  {
    if p.streak + 1 >= 4 && p.chunk < MAX_CHUNK then Pace(Min(MAX_CHUNK, p.chunk * 2), 0)
    else Pace(p.chunk, p.streak + 1)
  }

  function Slower(p: Pace): (r: Pace)
    ensures Fair(p) ==> Fair(r)
  {
    Pace(if p.chunk > MIN_CHUNK then Max(MIN_CHUNK, p.chunk / 2) else p.chunk, 0)
  }

  /** Pieces halve with every failed batch and double with every four answered ones, between 64 KiB and 4 MiB. */
  lemma PaceMeaning(p: Pace)
    requires Fair(p)
    ensures Slower(p).streak == 0 && 0x1_0000 <= Slower(p).chunk
    ensures 0x2_0000 <= p.chunk && p.chunk % 2 == 0 ==> 2 * Slower(p).chunk == p.chunk
    ensures p.chunk < 0x2_0000 ==> Slower(p).chunk == 0x1_0000
    ensures p.streak < 3 ==> Faster(p) == p.(streak := p.streak + 1)
    ensures p.streak == 3 && p.chunk <= 0x20_0000 ==> Faster(p) == Pace(2 * p.chunk, 0)
    ensures p.chunk == 0x40_0000 ==> Faster(p) == p.(streak := p.streak + 1)
    ensures Faster(p).chunk <= 0x40_0000
  {
  }

  /** The pace after `n` answered batches and none that failed; from the fourth on the pieces are too long. */
  predicate After(p: Pace, n: nat) {
    if n < 4 then p == Pace(MAX_READ, n) else p.chunk in {2 * MAX_READ, 4 * MAX_READ}
  }

  lemma AfterOneMore(p: Pace, n: nat)
    requires After(p, n)
    ensures Fair(p) && After(Faster(p), Min(4, n + 1))
  {
  }

  // ----- a task of `left` start positions, of which a piece of full length covers `reach`

  /** The batches it takes at first. */
  function Batches(reach: nat, left: nat): nat
    requires reach > 0
  {
    (left + 4 * reach - 1) / (4 * reach)
  }

  /** How many batches were answered when the task is done, counted up to four. */
  function Done(reach: nat, n: nat, left: nat): nat
    requires reach > 0 && n <= 4
  {
    Min(4, n + Batches(reach, left))
  }

  /** A thread that has had `n` batches answered comes to a piece that is too long. */
  predicate Cut(reach: nat, n: nat, left: nat)
    requires n <= 4
  {
    left > reach * (17 - 4 * n)
  }

  /** What one batch of full pieces leaves. */
  function LeftAfter(left: nat, covered: nat): nat { if left > covered then left - covered else 0 }

  lemma BatchStep(reach: nat, n: nat, left: nat)
    requires reach > 0 && n < 4 && left > 0
    ensures Cut(reach, n, left) <==> Cut(reach, n + 1, LeftAfter(left, 4 * reach))
    ensures Done(reach, n, left) == Done(reach, n + 1, LeftAfter(left, 4 * reach))
  {
    assert reach * (17 - 4 * n) == reach * (17 - 4 * (n + 1)) + 4 * reach;
    assert reach * (17 - 4 * (n + 1)) >= reach * 1 by { Product(reach, 1, 17 - 4 * (n + 1)); }
    OneBatchLess(reach, left);
  }

  lemma Product(a: nat, b: nat, c: nat)
    requires b <= c
    ensures a * b <= a * c
  {
  }

  lemma OneBatchLess(reach: nat, left: nat)
    requires reach > 0 && left > 0
    ensures Batches(reach, left) == 1 + Batches(reach, LeftAfter(left, 4 * reach))
  {
    var d: nat := 4 * reach;
    if left <= d {
      RemainderIs(left + d - 1, d, 1, left - 1);
      RemainderIs(d - 1, d, 0, d - 1);
    } else {
      var q, r := (left - 1) / d, (left - 1) % d;
      assert left - 1 == q * d + r;
      RemainderIs(left + d - 1, d, q + 1, r) by { assert (q + 1) * d == q * d + d; }
      RemainderIs(left - 1, d, q, r);
      assert left - d + d - 1 == left - 1;
    }
  }

  lemma NoneLeft(reach: nat, n: nat)
    requires reach > 0 && n <= 4
    ensures !Cut(reach, n, 0) && Done(reach, n, 0) == n
  {
    assert reach * (17 - 4 * n) >= 0;
    RemainderIs(4 * reach - 1, 4 * reach, 0, 4 * reach - 1);
  }

  /** A thread that is ahead of another stays ahead of it, and is cut no later. */
  lemma Ahead(reach: nat, n: nat, m: nat, left: nat)
    requires reach > 0 && n <= m <= 4
    ensures Done(reach, n, left) <= Done(reach, m, left)
    ensures Cut(reach, n, left) ==> Cut(reach, m, left)
  {
    Product(reach, 17 - 4 * m, 17 - 4 * n);
  }
}
