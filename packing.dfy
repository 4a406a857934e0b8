/**
 * The convertor as the byte-transfer module uses it: whether the data is
 * contiguous (it needs no intermediate buffer), where its next unconverted
 * byte lies, and a pack operation that delivers at most the requested number
 * of bytes and may fail.
 */
module Packing {

  /**
   * `base`, `lb` and `converted` are the user buffer, the datatype's lower
   * bound and the bytes already converted; `remaining` is how many bytes the
   * source still holds and `fails` whether packing reports an error.
   */
  datatype Convertor = Convertor(
    contiguous: bool,
    base: nat,
    lb: nat,
    converted: nat,
    remaining: nat,
    fails: bool)

  /** ompi_convertor_need_buffers: non-zero exactly for non-contiguous data. */
  predicate NeedBuffers(c: Convertor) {
    !c.contiguous
  }

  /** The address of the next unconverted byte: base + lower bound + converted. */
  function Position(c: Convertor): nat {
    c.base + c.lb + c.converted
  }

  /** The outcome of one ompi_convertor_pack call. */
  datatype PackResult = PackResult(ok: bool, packed: nat, addr: nat)

  /**
   * ompi_convertor_pack with one iovec of `requested` bytes. It packs as much
   * as was requested unless the source runs out first; the address reported
   * for a contiguous source without a buffer is its current position.
   */
  function Pack(c: Convertor, requested: nat): (p: PackResult)
    ensures p.packed <= requested && p.packed <= c.remaining
    ensures p.packed == requested || p.packed == c.remaining
    ensures p.ok <==> !c.fails
    ensures p.addr == Position(c)
  {
    PackResult(!c.fails, if requested <= c.remaining then requested else c.remaining, Position(c))
  }
}
