/** The LZSS parameters of encode/lzh.c. */
module Parameters {
  const N := 4096       // size of the ring
  const F := 60         // longest match
  const THRESHOLD := 2  // longest part that is not worth a match
  const NIL := N        // no node
}
