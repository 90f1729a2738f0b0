# Tiled matrix multiply and AXPY, modelled in Dafny

This project models two SYCL sample programs and proves what they compute.

**Tiled matrix multiply** (`sycl_examples/matmul/tiled-matmul.cpp`). The kernel is launched on an
`nd_range` with global range `{M, N}` and local range `{1, tile_sz}`. Each work-item computes one
element `C[m][n]`. It walks the inner dimension `K` in blocks of `tile_sz`. In each block the
work-group stages `A[m][l .. l + tile_sz - 1]` in a local-memory tile, one slot per item. Every item
then multiplies the whole tile against its column of `B`. At the end each item writes its sum once.
The host then recomputes every element with a naive triple loop over the flat vectors.

The model runs each work-group sequentially. The two barriers become phase boundaries:
- a load phase fills the `tile` array in place;
- a compute phase updates each item's `sum`;
- a write phase stores the sums into the result buffer.

The result buffer is a class around an `array2<int>`. It carries a ghost write counter per element,
which lets the model state that every element of `C` is written exactly once. Matrix elements are
exact integers.

The proofs show that:
- the blocked sum equals the plain dot product;
- the result does not depend on the tile size;
- every index stays in range when the tile size divides `K`;
- the block loop runs `K / tile_sz` times;
- the `nd_range` partition covers each `(m, n)` exactly once;
- the host reference check passes for every choice of operands.

The device's local-memory-type query is modelled as a pure function from the queried value to its
name.

**AXPY** (`sycl_examples/axpy/axpy_usm_allocator.cpp`). `axpy` requires equal-length inputs. It
allocates a zero-filled output and fills it with `x[i] * alpha + y[i]`. The host program builds
`x = 0, 1, ..., sz - 1` and `y = sz - 1, ..., 0` with `alpha = 1`, and checks every output against
`sz - 1`. The model proves that this check always reports success.

Modules:
- `Arith`: multiplication and division facts;
- `Matrices`: row-major layout and the 2-D buffer view;
- `WorkPartition`: the `nd_range`;
- `MatMulSpec`: dot product, tile and blocked sums, block offsets, the host reference;
- `TiledMatMul`: the kernel simulation, the reference check and the host program;
- `DeviceInfo`: the local-memory-type name;
- `Axpy`: the AXPY routine and its host program.

## Model

| member | source | states |
|---|---|---|
| Matrices.Index | sycl_examples/matmul/tiled-matmul.cpp:69-70 | the row-major offset of `[r][c]` decodes back to row `r` and column `c` (`p / cols == r`, `p % cols == c`) |
| Matrices.IndexBound | sycl_examples/matmul/tiled-matmul.cpp:53 | an in-range row and column land inside the `rows * cols` flat vector |
| Matrices.IndexInjective | sycl_examples/matmul/tiled-matmul.cpp:69-70 | two in-range coordinates with the same offset are the same coordinate |
| Matrices.Matrix.Get | sycl_examples/matmul/tiled-matmul.cpp:116-125 | the accessor `acc[r][c]` reads element `r * cols + c` of the flat vector, which lies inside it |
| Matrices.ViewCoversVector | sycl_examples/matmul/tiled-matmul.cpp:148 | every element `p` of the flat vector is what the 2-D view shows at `[p / cols][p % cols]` |
| WorkPartition.TiledRange | sycl_examples/matmul/tiled-matmul.cpp:90-92 | the range `{M, N}` in groups `{1, tile}` is a valid `nd_range` exactly when the tile is positive and divides `N` |
| WorkPartition.NdRange.GlobalId | sycl_examples/matmul/tiled-matmul.cpp:102-103 | `get_global_id` of the item with group id `g` and local id `i`; dividing it by the local size gives back `g` and the remainder gives back `i`, in each dimension |
| WorkPartition.GlobalIdInRange | sycl_examples/matmul/tiled-matmul.cpp:95-103 | every work-item's global id lies inside the global range |
| WorkPartition.GlobalIdInjective | sycl_examples/matmul/tiled-matmul.cpp:95-103 | distinct work-items have distinct global ids |
| WorkPartition.GlobalIdCovers | sycl_examples/matmul/tiled-matmul.cpp:95-103 | every point of the global range is the global id of some work-item, in group `(m / L0, n / L1)` with local id `(m % L0, n % L1)` |
| WorkPartition.TiledGroupSharesRow | sycl_examples/matmul/tiled-matmul.cpp:92-108 | with local range `{1, tile}` all items of a group share row `m`, and local id `i` picks column `g1 * tile + i` |
| MatMulSpec.TileDotExtends | sycl_examples/matmul/tiled-matmul.cpp:123-126 | one tile starting at `l` extends the dot product over `[0, l)` to `[0, l + t)` |
| MatMulSpec.BlockedEqualsDot | sycl_examples/matmul/tiled-matmul.cpp:111-126 | the blocked accumulation equals the plain dot product at every block boundary |
| MatMulSpec.TileSizeIndependent | sycl_examples/matmul/tiled-matmul.cpp:82-126 | any two tile sizes dividing `K` give the same blocked sum |
| MatMulSpec.BlockOffsetsFrom | sycl_examples/matmul/tiled-matmul.cpp:114 | from a multiple `l` of the tile size, the block loop visits `(K - l) / T` offsets, the `q`-th being `l + q * T`, each block ending at or before `K` |
| MatMulSpec.BlockLoopShape | sycl_examples/matmul/tiled-matmul.cpp:114-125 | the block loop runs exactly `K / T` times at offsets `q * T`, and every index `l + i` or `l + k` it reads is below `K` |
| MatMulSpec.BoundaryBlocks | sycl_examples/matmul/tiled-matmul.cpp:114 | `K == T` gives the single block `[0]`; `K == 2T` gives the blocks `[0, T]` |
| MatMulSpec.GoldIsDot | sycl_examples/matmul/tiled-matmul.cpp:144-148 | on square `N x N` operands the host's flat-vector sum `A[j*N+k] * B[k*N+i]` is the dot product of the 2-D views |
| TiledMatMul.ResultBuffer.constructor | sycl_examples/matmul/tiled-matmul.cpp:71 | a fresh `M x N` result buffer with no initial data and no writes recorded |
| TiledMatMul.ResultBuffer.Write | sycl_examples/matmul/tiled-matmul.cpp:135 | writing `C[r][c]` sets that element, leaves every other element unchanged, and counts one write to `[r][c]` only |
| TiledMatMul.LoadPhase | sycl_examples/matmul/tiled-matmul.cpp:116 | after the load phase of block `l`, `tile[k] == A[m][l + k]` for every slot `k` |
| TiledMatMul.ComputePhase | sycl_examples/matmul/tiled-matmul.cpp:123-126 | each item's `sum` grows by exactly its tile's contribution `sum over k of tile[k] * B[l + k][n]` |
| TiledMatMul.WritePhase | sycl_examples/matmul/tiled-matmul.cpp:135 | each item of the group writes its sum to its own `C[m][n]`, once, and no other element changes |
| TiledMatMul.AccumulateBlocks | sycl_examples/matmul/tiled-matmul.cpp:111-132 | the block loop visits the offsets `0, T, 2T, ...` below `K` and leaves each item's sum equal to the full dot product of row `m` and column `n` |
| TiledMatMul.RunWorkGroup | sycl_examples/matmul/tiled-matmul.cpp:95-136 | one work-group, run on any state of `C`, sets its strip of row `m` to the product, writes each of those elements once, and changes no other element |
| TiledMatMul.RunGroupRow | sycl_examples/matmul/tiled-matmul.cpp:90-95 | the groups of row `m`, run on any state of `C`, set the whole row to the product, write each of its elements once, and leave every other row unchanged |
| TiledMatMul.Dispatch | sycl_examples/matmul/tiled-matmul.cpp:74-137 | after the kernel every `C[m][n]` is the dot product of row `m` of `A` and column `n` of `B`, and every element was written exactly once |
| TiledMatMul.ReferenceCheck | sycl_examples/matmul/tiled-matmul.cpp:143-155 | `passed` is true exactly when every `C[j][i]` equals the reference sum `gold` |
| TiledMatMul.TiledMatMulProgram | sycl_examples/matmul/tiled-matmul.cpp:45-157 | with `sz = 256` and `tile_sz = 16`, the reference check passes for all operands |
| DeviceInfo.LocalMemoryTypeName | sycl_examples/matmul/tiled-matmul.cpp:16-29 | the name is "local" exactly for `local`, "global" exactly for `global`, and "none" for `none` and every other value |
| Axpy.AxpyKernel | sycl_examples/axpy/axpy_usm_allocator.cpp:40-47 | item `i` sets `z[i] = x[i] * alpha + y[i]` for every `i`, and every `z[i]` is written exactly once |
| Axpy.AllocateZeroed | sycl_examples/axpy/axpy_usm_allocator.cpp:31 | the output vector has `sz` elements, all zero |
| Axpy.Axpy | sycl_examples/axpy/axpy_usm_allocator.cpp:17-50 | equal-length inputs; the fresh output has their length and holds `x[i] * alpha + y[i]`; `x` and `y` are unchanged |
| Axpy.Iota | sycl_examples/axpy/axpy_usm_allocator.cpp:68-69 | `x` is filled with `start, start + 1, ...` |
| Axpy.IotaReversed | sycl_examples/axpy/axpy_usm_allocator.cpp:71-72 | `y` is filled from the back, so `y[k] == start + (len - 1 - k)` |
| Axpy.AxpyProgram | sycl_examples/axpy/axpy_usm_allocator.cpp:52-88 | with `x = 0 .. sz - 1`, `y = sz - 1 .. 0` and `alpha = 1`, every `z[i]` is `sz - 1`, so the message is "Nice job!" |

## Left out

- Parallel execution and barriers: work-items and work-groups run sequentially, and each barrier is a phase boundary. Races or deadlocks from a missing barrier are not modelled.
- TiledMatMul.Dispatch: runs the work-groups row by row in a fixed order, and its result is proved for that order. Each group's contract (`TiledMatMul.RunWorkGroup`) holds on any state of `C` and changes only the group's own strip, but no other order of the groups, and no interleaving of their items, is modelled.
- Floating point: elements are exact integers, not IEEE `double`. The relative-error test `|gold - C| / gold > 1e-12` and the AXPY tolerance `>= 1e-13` become exact equality. The model does not capture the division by a zero `gold`.
- Queue and device selection, and printing of the device vendor, name and local memory size: these are runtime calls and output. The queried local memory type is a parameter of `DeviceInfo.LocalMemoryTypeName`.
- Random operands: `A` and `B` are arbitrary integer sequences in place of the Mersenne Twister draws.
- USM host and shared allocators, and SYCL buffer, accessor and host-accessor lifetimes: vectors are `seq`/`array` values, and the copy back to the host is not modelled.
- A tile size that does not divide `K`: the code has no check and no tail tile, so `K % T == 0` is a precondition of the kernel. `N % T == 0` is a precondition too, because the runtime rejects an `nd_range` whose local range does not divide the global range.
- Axpy.Axpy: the `assert(x.size() == y.size())` is a precondition, not a run-time abort.
- Axpy.Axpy: the element type is `int`, not the template parameter `T`.
- TiledMatMul.ReferenceCheck: uses `N` for every dimension, as the host loop does, so it is modelled on square `N x N` operands only. The kernel model itself takes general `M`, `N` and `K`.
- Process exit status and the `SUCCESS`/`FAILURE` and "Uh-oh!" output lines: the model returns `passed` and the message string instead.
