/** Numbers that several parts of the kernel share. */
module Params {
  const UINT := 0x1_0000_0000   // values of a 32-bit unsigned integer
  const NPROC := 64             // processes
  const NBUF := 10              // disk buffers
  const MIN_ORD := 6            // log2 of the sizes of the allocator's blocks, from
  const MAX_ORD := 12           // to
}
