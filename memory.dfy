/** The exported allocator pair `alloc_memory` / `dealloc_memory`. The Rust
    global allocator is foreign: whether it grants a request is a parameter. */
module Memory {
  import opened Machine
  import opened ResizeErrors

  /** `Layout::from_size_align(size, 1)` succeeds exactly for sizes up to `isize::MAX`. */
  predicate LayoutFits(size: nat)
  {
    size <= ISIZE_MAX
  }

  /** `alloc_memory`: size 0 is refused with `RESIZE_ERR_INVALID_SIZE`; a size no
      layout can describe, or a refusal by the allocator, gives
      `RESIZE_ERR_MEMORY`; otherwise a fresh buffer of exactly `size` zero bytes,
      and the last error is left as it was. */
  method AllocMemory(cell: ErrorCell, size: usize, allocatorGrants: bool) returns (p: array?<byte>)
    modifies cell
    ensures size == 0 ==> p == null && cell.code == RESIZE_ERR_INVALID_SIZE
    ensures size > 0 && (!LayoutFits(size) || !allocatorGrants) ==>
              p == null && cell.code == RESIZE_ERR_MEMORY
    ensures size > 0 && LayoutFits(size) && allocatorGrants ==>
              p != null && fresh(p) && p.Length == size && cell.code == old(cell.code)
    ensures p != null ==> forall i :: 0 <= i < p.Length ==> p[i] == 0
  {
    if size == 0 {
      cell.Set(RESIZE_ERR_INVALID_SIZE);
      return null;
    }
    if !LayoutFits(size) {
      cell.Set(RESIZE_ERR_MEMORY);
      return null;
    }
    if !allocatorGrants {
      cell.Set(RESIZE_ERR_MEMORY);
      return null;
    }
    var buf := new byte[size];
    // std::ptr::write_bytes(ptr, 0, size)
    for i := 0 to size
      modifies buf
      invariant forall j :: 0 <= j < i ==> buf[j] == 0
    {
      buf[i] := 0;
    }
    p := buf;
  }

  /** `dealloc_memory`: hands the block back to the allocator unless the pointer
      is null, the size is 0, or no layout can describe the size; it never
      touches the last error. */
  method DeallocMemory(p: array?<byte>, size: usize) returns (released: bool)
    ensures released <==> p != null && size != 0 && LayoutFits(size)
  {
    if p == null || size == 0 {
      return false;
    }
    if !LayoutFits(size) {
      return false;
    }
    released := true;
  }
}
