/** Shared vocabulary of the model: optional values, the fatal conditions
    (Rust panics) that the original code can raise, a result type that makes
    such a panic an explicit outcome, and bytes. */
module Common {

  /** `Option<T>` of the original code. */
  datatype Option<+T> = None | Some(value: T)

  /** Every panic the modelled code can reach, named after its cause. */
  datatype Panic =
    | DoubleFree          // a bitmap bit released while already clear
    | OutOfBlockCache     // a cache miss while all 16 resident entries are pinned
    | InodeExhausted      // `alloc_inode` unwrapping `None`
    | DataExhausted       // `alloc_data` unwrapping `None`
    | AlreadyMapped       // `PageTable::map` on a valid entry
    | NotMapped           // `PageTable::unmap`/`translate(..).unwrap()` without an entry
    | UnmapInvalid        // `PageTable::unmap` on an entry whose V bit is clear

  /** Either a normal result or the panic that aborted the operation. */
  datatype Result<+T> = Ok(value: T) | Fatal(panic: Panic) {
    predicate IsFailure() { Fatal? }

    function PropagateFailure<U>(): Result<U>
      requires Fatal?
    {
      Fatal(panic)
    }

    function Extract(): T
      requires Ok?
    {
      value
    }
  }

  /** An unsigned 8-bit value (`u8`). */
  type byte = x: int | 0 <= x < 256

  /** `n` zero bytes. */
  function Zeros(n: nat): (z: seq<byte>)
    ensures |z| == n
    ensures forall k :: 0 <= k < n ==> z[k] == 0
  {
    seq(n, _ => 0)
  }

  function Min(a: int, b: int): int { if a < b then a else b }
  function Max(a: int, b: int): int { if a < b then b else a }
}
