/** What a scan looks for, and what one place in memory answers. */
module ScanQuery {
  import opened Machine

  datatype ValueType = U8 | U16 | U32 | U64 | FLOAT | DOUBLE | S32 | S64 | STRING | AOB | BINARY | ALL
  datatype Comparison = EQ | NE | GT | LT | GE | LE | CHANGED | UNCHANGED

  /** The readings of a number typed into an ALL scan; a reading may be missing. */
  datatype AllTarget = AllTarget(unsigned: Option<u64>, signed: Option<i64>, float: bool)

  /**
   A query. `floatMatch(n, bits)` says whether the IEEE number of `n` bytes with these bits stands in
   the wanted relation to the target; floating point itself is not modelled.
   */
  datatype Query = Query(
    ty: ValueType, condition: Comparison, target: u64, pattern: seq<byte>, all: AllTarget,
    floatMatch: (nat, nat) -> bool)

  function ValueSize(ty: ValueType): nat {
    match ty
    case U8 => 1
    case U16 => 2
    case U32 => 4
    case U64 => 8
    case FLOAT => 4
    case DOUBLE => 8
    case S32 => 4
    case S64 => 8
    case _ => 1
  }

  predicate IsPattern(ty: ValueType) { ty == STRING || ty == AOB || ty == BINARY }

  /** Fewest bytes a match needs, and most bytes it looks at. */
  function MinMatch(q: Query): nat {
    if IsPattern(q.ty) then |q.pattern| else if q.ty == ALL then 1 else ValueSize(q.ty)
  }

  function Need(q: Query): nat { if q.ty == ALL then 8 else MinMatch(q) }

  predicate Compare(actual: int, target: int, condition: Comparison) {
    match condition
    case EQ => actual == target
    case NE => actual != target
    case GT => actual > target
    case LT => actual < target
    case GE => actual >= target
    case LE => actual <= target
    case _ => false
  }

  /** `bits` read as a two's-complement number of `n` bytes. */
  function Signed(n: nat, bits: nat): int {
    if n == 4 then (if bits < 0x8000_0000 then bits else bits - 0x1_0000_0000)
    else (if bits < I64_LIMIT then bits else bits - U64_LIMIT)
  }

  predicate TypedMatch(q: Query, bits: nat) {
    match q.ty
    case FLOAT => q.floatMatch(4, bits)
    case DOUBLE => q.floatMatch(8, bits)
    case S32 => Compare(Signed(4, bits), Signed(4, q.target), q.condition)
    case S64 => Compare(Signed(8, bits), Signed(8, q.target), q.condition)
    case _ => Compare(bits, q.target, q.condition)
  }

  predicate AllUnsigned(w: seq<byte>, n: nat, t: u64, condition: Comparison) {
    |w| >= n && Compare(LoadLE(w[..n]), t % Pow256(n), condition)
  }

  predicate AllSigned(w: seq<byte>, n: nat, t: i64, condition: Comparison) {
    |w| >= n && Compare(Signed(n, LoadLE(w[..n])), if n == 4 then Signed(4, t % 0x1_0000_0000) else t, condition)
  }

  /** An ALL scan accepts a place that matches under any width and reading for which there are bytes left. */
  predicate AllMatch(q: Query, w: seq<byte>) {
    || (q.all.unsigned.Some? &&
        (|| AllUnsigned(w, 1, q.all.unsigned.value, q.condition) || AllUnsigned(w, 2, q.all.unsigned.value, q.condition)
         || AllUnsigned(w, 4, q.all.unsigned.value, q.condition)
         || AllUnsigned(w, 8, q.all.unsigned.value, q.condition)))
    || (q.all.signed.Some? &&
        (AllSigned(w, 4, q.all.signed.value, q.condition) || AllSigned(w, 8, q.all.signed.value, q.condition)))
    || (q.all.float &&
        ((|w| >= 4 && q.floatMatch(4, LoadLE(w[..4]))) || (|w| >= 8 && q.floatMatch(8, LoadLE(w[..8])))))
  }

  function FirstBits(w: seq<byte>, n: nat): nat { LoadLE(w[..Min(n, Min(8, |w|))]) }

  /** The value recorded for a match on the window `w`, if it is one. A first scan takes patterns as equal. */
  function FirstMatch(q: Query, w: seq<byte>): Option<nat> {
    if |w| < MinMatch(q) then None
    else if IsPattern(q.ty) then
      (if w[..|q.pattern|] == q.pattern then Some(FirstBits(w, |q.pattern|)) else None)
    else if q.ty == ALL then (if AllMatch(q, w) then Some(FirstBits(w, 8)) else None)
    else
      var bits := LoadLE(w[..ValueSize(q.ty)]);
      if TypedMatch(q, bits) then Some(bits) else None
  }

  datatype Outcome = Bad | Drop | Keep(bits: nat)

  /** What a next scan makes of an entry last seen as `previous`; `bytes` is what could be read there. */
  function NextOutcome(q: Query, previous: nat, bytes: Option<seq<byte>>): Outcome {
    match bytes
    case None => Bad
    case Some(w) =>
      if IsPattern(q.ty) then
        var equal := |w| >= |q.pattern| && w[..|q.pattern|] == q.pattern;
        if (q.condition == EQ && equal) || (q.condition == NE && !equal) then Keep(FirstBits(w, 8)) else Drop
      else if q.ty == ALL then (if AllMatch(q, w) then Keep(FirstBits(w, 8)) else Drop)
      else if |w| < ValueSize(q.ty) then Bad
      else
        var bits := LoadLE(w[..ValueSize(q.ty)]);
        var match' :=
          if q.condition == CHANGED then bits != previous
          else if q.condition == UNCHANGED then bits == previous
          else TypedMatch(q, bits);
        if match' then Keep(bits) else Drop
  }
}
